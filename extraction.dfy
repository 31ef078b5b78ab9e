/** The field extraction at the top of `main` (index.js:36-42): each field is
    found by a regular expression over the issue body, the matched text is
    split on the escaped blank line, and piece [1] is trimmed.  A missing
    match, or a match with no piece [1], throws before any remote call. */
module Extraction {
  import opened JsText

  /** `new RegExp(heading + '.+###')` when `terminated`, else
      `new RegExp(heading + '.+')`. */
  datatype Pattern = Pattern(heading: string, terminated: bool)

  const SectionMarker: string := "###"

  /** The four form fields index.js reads, in the order it reads them. */
  datatype Field = FullName | Email | PmEmail | GitHubUsername

  function PatternOf(f: Field): Pattern {
    match f
    case FullName => Pattern("Full Name", true)
    case Email => Pattern("Email", true)
    case PmEmail => Pattern("PM/COR Email", false)
    case GitHubUsername => Pattern("GitHub Username", true)
  }

  datatype Request = Request(name: string, email: string, pm: string, username: string)

  datatype ExtractionResult = Extracted(request: Request) | Missing(field: Field)

  // ---------------------------------------------------------------------
  // the regular expression

  predicate NoLineBreak(s: string, a: nat, b: nat)
    requires a <= b <= |s|
  {
    forall t :: a <= t < b ==> !IsLineTerminator(s[t])
  }

  /** `s[..e]` ends with the section marker `###`. */
  predicate MarkerEndsAt(s: string, e: nat) {
    |SectionMarker| <= e <= |s| && s[e - |SectionMarker|..e] == SectionMarker
  }

  /** The pattern matches `s[i..e]`: the heading, then at least one character
      that is not a line terminator (`.+`), then `###` when the pattern has
      it; `.` never crosses a line terminator. */
  predicate MatchAt(s: string, p: Pattern, i: nat, e: nat) {
    var b := i + |p.heading|;
    OccursAt(s, p.heading, i) &&
    if p.terminated then
      b + 1 + |SectionMarker| <= e && MarkerEndsAt(s, e) &&
      NoLineBreak(s, b, e - |SectionMarker|)
    else
      b < e <= |s| && NoLineBreak(s, b, e)
  }

  /** The end of the line that contains position `k`. */
  function LineEnd(s: string, k: nat): (e: nat)
    requires k <= |s|
    ensures k <= e <= |s| && NoLineBreak(s, k, e)
    ensures e < |s| ==> IsLineTerminator(s[e])
    decreases |s| - k
  {
    if k == |s| || IsLineTerminator(s[k]) then k else LineEnd(s, k + 1)
  }

  /** The largest `e` in `[lo, hi]` with `s[..e]` ending in `###`. */
  function LastMarkerEnd(s: string, lo: nat, hi: nat): (r: Option<nat>)
    requires hi <= |s|
    ensures r.Some? ==> lo <= r.value <= hi && MarkerEndsAt(s, r.value)
    ensures r.Some? ==> forall e :: r.value < e <= hi ==> !MarkerEndsAt(s, e)
    ensures r.None? ==> forall e :: lo <= e <= hi ==> !MarkerEndsAt(s, e)
    decreases hi
  {
    if hi < lo then None
    else if MarkerEndsAt(s, hi) then Some(hi)
    else if hi == 0 then None
    else LastMarkerEnd(s, lo, hi - 1)
  }

  /** A line terminator cannot lie inside a `###`. */
  lemma MarkerHasNoLineBreak(s: string, e: nat)
    requires MarkerEndsAt(s, e)
    ensures NoLineBreak(s, e - |SectionMarker|, e)
  {
    forall t | e - |SectionMarker| <= t < e ensures s[t] == '#' {
      assert s[t] == s[e - |SectionMarker|..e][t - (e - |SectionMarker|)];
    }
  }

  /** No match runs past the end of the line its heading is on. */
  lemma MatchWithinLine(s: string, p: Pattern, i: nat)
    requires OccursAt(s, p.heading, i)
    ensures forall e: nat :: MatchAt(s, p, i, e) ==> e <= LineEnd(s, i + |p.heading|)
  {
    var b := i + |p.heading|;
    var le := LineEnd(s, b);
    forall e: nat | MatchAt(s, p, i, e) && le < e ensures false {
      if p.terminated {
        MarkerHasNoLineBreak(s, e);
      }
    }
  }

  /** The end of the greedy match of `p` that starts at `i`, if any: `.+`
      takes the whole line and backs off to the last `###` on it. */
  function ProbeAt(s: string, p: Pattern, i: nat): (r: Option<nat>)
    ensures r.Some? ==> MatchAt(s, p, i, r.value)
    ensures r.Some? ==> forall e :: r.value < e ==> !MatchAt(s, p, i, e)
    ensures r.None? ==> forall e :: !MatchAt(s, p, i, e)
  {
    if !OccursAt(s, p.heading, i) then None
    else
      var b := i + |p.heading|;
      assert b <= |s|;
      var le := LineEnd(s, b);
      MatchWithinLine(s, p, i);
      if p.terminated then
        var r := LastMarkerEnd(s, b + 1 + |SectionMarker|, le);
        assert r.Some? ==> MatchAt(s, p, i, r.value) by {
          if r.Some? {
            assert NoLineBreak(s, b, r.value - |SectionMarker|);
          }
        }
        r
      else if b < le then Some(le)
      else None
  }

  /** The leftmost match of `p` starting at or after `from`, with its greedy
      end: what `s.match(new RegExp(...))` finds. */
  function FindFrom(s: string, p: Pattern, from: nat): (r: Option<(nat, nat)>)
    ensures r.Some? ==> from <= r.value.0 && MatchAt(s, p, r.value.0, r.value.1)
    ensures r.Some? ==> forall e :: r.value.1 < e ==> !MatchAt(s, p, r.value.0, e)
    ensures r.Some? ==> forall i, e :: from <= i < r.value.0 ==> !MatchAt(s, p, i, e)
    ensures r.None? ==> forall i, e :: from <= i ==> !MatchAt(s, p, i, e)
    decreases |s| + 1 - from
  {
    if from > |s| then None
    else
      match ProbeAt(s, p, from)
      case Some(e) => Some((from, e))
      case None =>
        var r := FindFrom(s, p, from + 1);
        assert forall i, e :: from <= i < from + 1 ==> !MatchAt(s, p, i, e);
        r
  }

  /** The match `s.match(new RegExp(...))` returns: `p` matches `s[i..e]`,
      no match starts further left, and none that starts at `i` is longer. */
  ghost predicate LeftmostLongest(s: string, p: Pattern, i: nat, e: nat) {
    MatchAt(s, p, i, e) &&
    (forall j: nat, e': nat :: j < i ==> !MatchAt(s, p, j, e')) &&
    (forall e': nat :: e < e' ==> !MatchAt(s, p, i, e'))
  }

  /** `FindFrom` from the start of the text returns the leftmost-longest
      match, whichever it is. */
  lemma FindsLeftmostLongest(s: string, p: Pattern)
    ensures forall i: nat, e: nat :: LeftmostLongest(s, p, i, e) ==> FindFrom(s, p, 0) == Some((i, e))
  {
    forall i: nat, e: nat | LeftmostLongest(s, p, i, e) ensures FindFrom(s, p, 0) == Some((i, e)) {
      var r := FindFrom(s, p, 0);
      assert r.Some?;
      assert r.value.0 == i;
    }
  }

  /** Piece [1] of `s.split('\\n\\n')` is `s[i + 4..j]`: `i` is the first
      separator, and `j` the next one after it, or the end of the text. */
  ghost predicate PieceOneAt(s: string, i: nat, j: nat) {
    i + |EscapedBlankLine| <= j <= |s| && SepAt(s, i) &&
    (forall t: nat :: t < i ==> !SepAt(s, t)) &&
    (forall t: nat :: i + |EscapedBlankLine| <= t < j ==> !SepAt(s, t)) &&
    (j == |s| || SepAt(s, j))
  }

  lemma SepShift(s: string, k: nat, t: nat)
    requires k <= |s|
    ensures SepAt(s[k..], t) <==> SepAt(s, k + t)
  {
    if t <= |s| - k {
      assert s[k..][t..] == s[k + t..];
    }
  }

  lemma NoSepShifted(s: string, k: nat, j: nat)
    requires k <= j <= |s| && (forall t: nat :: k <= t < j ==> !SepAt(s, t))
    ensures forall t: nat :: t < j - k ==> !SepAt(s[k..], t)
  {
    forall t: nat | t < j - k ensures !SepAt(s[k..], t) {
      SepShift(s, k, t);
    }
  }

  /** With no separator before `q`, and one at `q` unless `q` is the end,
      piece [0] of the split is `s[..q]`. */
  lemma PieceZeroOfSplit(s: string, q: nat)
    requires q <= |s| && (forall t: nat :: t < q ==> !SepAt(s, t))
    requires q == |s| || SepAt(s, q)
    ensures Split(s)[0] == s[..q]
  {
    if q == |s| {
      NoSepFound(s);
      SplitWithoutSep(s);
    } else {
      FirstSepFound(s, q);
      SplitAtFirst(s, q);
    }
  }

  /** Past the first separator, at `i`, the split goes on with the rest. */
  lemma SplitPastFirst(s: string, i: nat)
    requires SepAt(s, i) && (forall t: nat :: t < i ==> !SepAt(s, t))
    ensures |Split(s)| >= 2 && Split(s)[1] == Split(s[i + |EscapedBlankLine|..])[0]
  {
    FirstSepFound(s, i);
    SplitAtFirst(s, i);
  }

  /** Piece [1] of the split is the text between the first separator and
      the next one, or the end. */
  lemma PieceOneOfSplit(s: string, i: nat, j: nat)
    requires PieceOneAt(s, i, j)
    ensures |Split(s)| >= 2 && Split(s)[1] == s[i + |EscapedBlankLine|..j]
  {
    var k := i + |EscapedBlankLine|;
    var r := s[k..];
    var q := j - k;
    NoSepShifted(s, k, j);
    if j < |s| {
      SepShift(s, k, q);
    }
    PieceZeroOfSplit(r, q);
    assert Split(r)[0] == s[k..j];
    SplitPastFirst(s, i);
  }

  /** A text that holds the separator has a piece [1]. */
  lemma PieceOneExists(s: string)
    requires HasSep(s)
    ensures exists i: nat, j: nat :: PieceOneAt(s, i, j)
  {
    var i := FindSep(s, 0).value;
    var j := match FindSep(s, i + |EscapedBlankLine|) case None => |s| case Some(q) => q;
    assert PieceOneAt(s, i, j);
  }

  /** Piece [1] of a matched text split on the escaped blank line,
      trimmed; None when the text holds no separator, so that there is no
      piece [1] and index.js would throw. */
  function SecondPiece(text: string): (r: Option<string>)
    ensures r.None? <==> !HasSep(text)
    ensures forall i: nat, j: nat :: PieceOneAt(text, i, j) ==> r == Some(Trim(text[i + |EscapedBlankLine|..j]))
    ensures r.Some? ==> r.value == [] || (!IsJsSpace(r.value[0]) && !IsJsSpace(r.value[|r.value| - 1]))
  {
    var pieces := Split(text);
    if |pieces| < 2 then None
    else
      assert forall i: nat, j: nat :: PieceOneAt(text, i, j) ==> pieces[1] == text[i + |EscapedBlankLine|..j] by {
        forall i: nat, j: nat | PieceOneAt(text, i, j) ensures pieces[1] == text[i + |EscapedBlankLine|..j] {
          PieceOneOfSplit(text, i, j);
        }
      }
      Some(Trim(pieces[1]))
  }

  /** What index.js reads for field `f`: piece [1] of the leftmost-longest
      match, trimmed; None where index.js would throw -- when nothing
      matches, or when the match holds no separator. */
  function FieldText(body: string, f: Field): (r: Option<string>)
    ensures (forall i, e :: !MatchAt(body, PatternOf(f), i, e)) ==> r.None?
    ensures forall i: nat, e: nat :: LeftmostLongest(body, PatternOf(f), i, e) ==> r == SecondPiece(body[i..e])
    ensures r.Some? <==> exists i: nat, e: nat :: LeftmostLongest(body, PatternOf(f), i, e) && HasSep(body[i..e])
    ensures r.Some? ==> r.value == [] || (!IsJsSpace(r.value[0]) && !IsJsSpace(r.value[|r.value| - 1]))
  {
    FindsLeftmostLongest(body, PatternOf(f));
    match FindFrom(body, PatternOf(f), 0)
    case None => None
    case Some((i, e)) =>
      assert LeftmostLongest(body, PatternOf(f), i, e);
      SecondPiece(body[i..e])
  }

  /** index.js:40-42: a username that contains `@` anywhere loses its first
      character; any other username is kept as it is. */
  function NormalizeUsername(u: string): (r: string)
    ensures '@' in u ==> |r| == |u| - 1 && u == [u[0]] + r
    ensures '@' !in u ==> r == u
  {
    if '@' in u then u[1..] else u
  }

  /** The four fields in the order index.js reads them; the first one that
      cannot be extracted is the error. */
  function ExtractRequest(body: string): (r: ExtractionResult)
    ensures r.Missing? ==> FieldText(body, r.field).None?
    ensures r.Missing? && r.field != FullName ==> FieldText(body, FullName).Some?
    ensures r.Missing? && r.field in {PmEmail, GitHubUsername} ==> FieldText(body, Email).Some?
    ensures r == Missing(GitHubUsername) ==> FieldText(body, PmEmail).Some?
    ensures r.Extracted? <==>
              FieldText(body, FullName).Some? && FieldText(body, Email).Some? &&
              FieldText(body, PmEmail).Some? && FieldText(body, GitHubUsername).Some?
    ensures r.Extracted? ==>
              Some(r.request.name) == FieldText(body, FullName) &&
              Some(r.request.email) == FieldText(body, Email) &&
              Some(r.request.pm) == FieldText(body, PmEmail) &&
              FieldText(body, GitHubUsername).Some? &&
              r.request.username == NormalizeUsername(FieldText(body, GitHubUsername).value)
  {
    match FieldText(body, FullName)
    case None => Missing(FullName)
    case Some(name) =>
      match FieldText(body, Email)
      case None => Missing(Email)
      case Some(email) =>
        match FieldText(body, PmEmail)
        case None => Missing(PmEmail)
        case Some(pm) =>
          match FieldText(body, GitHubUsername)
          case None => Missing(GitHubUsername)
          case Some(username) =>
            Extracted(Request(name, email, pm, NormalizeUsername(username)))
  }

  /** A mention loses its sigil and a plain login is kept; but the test is
      for `@` anywhere, so a name with an inner `@` loses its first
      character instead. */
  lemma UsernameExamples()
    ensures NormalizeUsername("@octocat") == "octocat"
    ensures NormalizeUsername("octocat") == "octocat"
    ensures NormalizeUsername("octo@cat") == "cto@cat"
  {
    assert '@' in "octo@cat";
    assert '@' !in "octocat";
  }
}
