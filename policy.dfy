/** The access decision of index.js:64 and index.js:88: substring tests of
    the configured suffix against the requester's email, then against the
    PM/COR email, in that order. */
module Policy {
  import opened JsText

  datatype Outcome = AutoApproved | PendingApproval | Rejected

  /** `email.includes(suffix)` decides first; only when it fails does
      `pm.includes(suffix)` decide between approval by the PM/COR and
      rejection.  Exactly one outcome holds for every input. */
  function Decide(email: string, pm: string, suffix: string): (o: Outcome)
    ensures o == AutoApproved <==> Occurs(email, suffix)
    ensures o == PendingApproval <==> !Occurs(email, suffix) && Occurs(pm, suffix)
    ensures o == Rejected <==> !Occurs(email, suffix) && !Occurs(pm, suffix)
  {
    if Includes(email, suffix) then AutoApproved
    else if Includes(pm, suffix) then PendingApproval
    else Rejected
  }

  /** The test is containment anywhere in the address, not a domain match:
      an address whose domain only starts with the suffix's domain is
      approved automatically. */
  lemma SuffixMatchesInsideDomain()
    ensures Decide("jane@agency.gov.example.com", "pm@corp.example", "@agency.gov") == AutoApproved
  {
    assert OccursAt("jane@agency.gov.example.com", "@agency.gov", 4);
  }

  /** A suffix without its `@` also matches a different domain that ends
      with it. */
  lemma SuffixMatchesLongerDomain()
    ensures Decide("a@notagency.gov", "pm@corp.example", "agency.gov") == AutoApproved
  {
    assert OccursAt("a@notagency.gov", "agency.gov", 5);
  }

  /** An address outside the suffix whose PM/COR address is inside it
      goes to the PM/COR for approval; with both outside, the request is
      rejected. */
  lemma DecisionExamples()
    ensures Decide("a@corp.com", "pm@agency.gov", "@agency.gov") == PendingApproval
    ensures Decide("a@corp.com", "pm@corp.com", "@agency.gov") == Rejected
  {
    assert OccursAt("pm@agency.gov", "@agency.gov", 2);
    // neither address holds "@agency.gov" at any position
    forall i: nat | OccursAt("a@corp.com", "@agency.gov", i) ensures false { }
    assert "pm@corp.com"[0] != "@agency.gov"[0];
    forall i: nat | OccursAt("pm@corp.com", "@agency.gov", i) ensures false { }
  }
}
