/** The remote-call sequence of `main` (index.js:44-143) and `fail`
    (index.js:146-149).  Every remote call becomes an `Action` appended to a
    trace at the moment it is issued; whether it succeeds, and the id a
    lookup returns, come from an oracle that answers the k-th call of the
    run.  `fail` records the failed status and ends the run at once. */
module Orchestration {
  import opened JsText
  import opened Extraction
  import opened Policy

  /** The action's inputs, as index.js reads them (lines 8-14). */
  datatype Config = Config(
    org: string,
    team: string,
    repo: string,
    suffix: string,
    issueNumber: int,
    successMessage: string)

  /** One remote call through the REST client. */
  datatype Action =
    | GetUser(username: string)                                  // users.getByUsername
    | GetTeam(org: string, teamSlug: string)                     // teams.getByName
    | Invite(org: string, inviteeId: int, role: string, teamIds: seq<int>)  // orgs.createInvitation
    | CloseIssue(owner: string, repo: string, issue: int)        // issues.update, state 'closed'
    | Comment(owner: string, repo: string, issue: int, body: string)  // issues.createComment

  /** The answer to one remote call: success, with the `data.id` of the
      returned object, or a thrown error. */
  datatype Reply = Ok(id: int) | Err

  /** The answer to the k-th remote call of the run. */
  type Oracle = nat -> Reply

  /** How the run ends.  `Failed(true)`: `fail` set the failed status and
      exited; `Failed(false)`: the rejection branch set the failed status
      and the run went on to its end; `ExtractionError`: a field could not
      be read and `main` threw before any remote call. */
  datatype Status = Passed | Failed(exited: bool) | ExtractionError(field: Field)

  datatype RunResult = RunResult(trace: seq<Action>, status: Status)

  const InviteRole: string := "direct_member"

  /** index.js:106. */
  function ApprovalComment(pm: string, name: string, email: string): string {
    "/approve --pm " + pm + " --name " + name + " --email " + email
  }

  /** index.js:124. */
  function RejectionComment(suffix: string): string {
    "PM/COR email must be in the " + suffix + " domain, please update the original"
  }

  // ---------------------------------------------------------------------
  // Reference semantics: the planned steps of each branch, and a generic
  // executor that stops at the first failing call.

  datatype Step = Call(action: Action) | MarkFailed

  /** The remote calls of `main` in program order, for a request whose
      lookups return `userId` and `teamId`. */
  function Plan(req: Request, cfg: Config, userId: int, teamId: int): seq<Step> {
    var getUser := Call(GetUser(req.username));
    var getTeam := Call(GetTeam(cfg.org, cfg.team));
    var invite := Call(Invite(cfg.org, userId, InviteRole, [teamId]));
    var success := Call(Comment(cfg.org, cfg.repo, cfg.issueNumber, cfg.successMessage));
    match Decide(req.email, req.pm, cfg.suffix)
    case AutoApproved =>
      [getUser, getTeam, invite, Call(CloseIssue(cfg.org, cfg.repo, cfg.issueNumber)), success]
    case PendingApproval =>
      [getUser, getTeam, invite,
       Call(Comment(cfg.org, cfg.repo, cfg.issueNumber, ApprovalComment(req.pm, req.name, req.email))), success]
    case Rejected =>
      [getUser, getTeam, Call(Comment(cfg.org, cfg.repo, cfg.issueNumber, RejectionComment(cfg.suffix))),
       MarkFailed, success]
  }

  /** The actions of the calls among `steps`. */
  function Calls(steps: seq<Step>): seq<Action> {
    if steps == [] then []
    else if steps[0].Call? then [steps[0].action] + Calls(steps[1..])
    else Calls(steps[1..])
  }

  /** Runs `steps` after the calls in `done`: the oracle answers call
      number `|done|`; a failing call ends the run as `fail` does;
      `MarkFailed` only records the failed status. */
  function Execute(steps: seq<Step>, respond: Oracle, done: seq<Action>, failed: bool): RunResult
    decreases |steps|
  {
    if steps == [] then
      RunResult(done, if failed then Failed(false) else Passed)
    else if steps[0].MarkFailed? then
      Execute(steps[1..], respond, done, true)
    else if respond(|done|).Err? then
      RunResult(done + [steps[0].action], Failed(true))
    else
      Execute(steps[1..], respond, done + [steps[0].action], failed)
  }

  /** The id a lookup returned; a failed lookup ends the run before its id
      could be used, so the value given for it is never observed. */
  function IdOf(reply: Reply): int {
    if reply.Ok? then reply.id else 0
  }

  /** What the remote-call part of a run does for an extracted request. */
  function Orchestrated(req: Request, cfg: Config, respond: Oracle): RunResult {
    Execute(Plan(req, cfg, IdOf(respond(0)), IdOf(respond(1))), respond, [], false)
  }

  /** What a run of index.js does with issue body `body`. */
  function Expected(body: string, cfg: Config, respond: Oracle): RunResult {
    match ExtractRequest(body)
    case Missing(f) => RunResult([], ExtractionError(f))
    case Extracted(req) => Orchestrated(req, cfg, respond)
  }

  // ---------------------------------------------------------------------
  // main

  /** `main` (index.js:35-144): the fields are extracted first, and a field
      that cannot be read throws before any remote call; then the remote
      calls run. */
  method Run(body: string, cfg: Config, respond: Oracle) returns (result: RunResult)
    ensures result == Expected(body, cfg, respond)
    ensures result.status.ExtractionError? <==> ExtractRequest(body).Missing?
    ensures result.status.ExtractionError? ==> result.trace == []
  {
    var extracted := ExtractRequest(body);
    if extracted.Missing? {
      return RunResult([], ExtractionError(extracted.field));
    }
    result := Orchestrate(extracted.request, cfg, respond);
  }

  /** The remote calls of `main` (index.js:44-143), statement by statement:
      the two lookups, the branch on the decision, the success comment.
      Each `fail` is an early return with the failed status. */
  method Orchestrate(req: Request, cfg: Config, respond: Oracle) returns (result: RunResult)
    ensures result == Orchestrated(req, cfg, respond)
    ensures result.status.Passed? || result.status.Failed?
  {
    // `rest` is what the reference run still has to do after `trace`
    ghost var rest := Plan(req, cfg, IdOf(respond(0)), IdOf(respond(1)));
    ghost var full := Execute(rest, respond, [], false);
    var trace: seq<Action> := [];
    var failed := false;

    // index.js:46-53
    var user := respond(|trace|);
    trace := trace + [GetUser(req.username)];
    if user.Err? {
      return RunResult(trace, Failed(true));
    }
    rest := rest[1..];
    assert full == Execute(rest, respond, trace, failed);

    // index.js:55-63
    var team := respond(|trace|);
    trace := trace + [GetTeam(cfg.org, cfg.team)];
    if team.Err? {
      return RunResult(trace, Failed(true));
    }
    rest := rest[1..];
    assert full == Execute(rest, respond, trace, failed);

    if Includes(req.email, cfg.suffix) {
      assert Decide(req.email, req.pm, cfg.suffix) == AutoApproved;
      // index.js:65-75
      var invited := respond(|trace|);
      trace := trace + [Invite(cfg.org, user.id, InviteRole, [team.id])];
      if invited.Err? {
        return RunResult(trace, Failed(true));
      }
      rest := rest[1..];
      assert full == Execute(rest, respond, trace, failed);
      // index.js:76-86
      var closed := respond(|trace|);
      trace := trace + [CloseIssue(cfg.org, cfg.repo, cfg.issueNumber)];
      if closed.Err? {
        return RunResult(trace, Failed(true));
      }
      rest := rest[1..];
    } else if Includes(req.pm, cfg.suffix) {
      assert Decide(req.email, req.pm, cfg.suffix) == PendingApproval;
      // index.js:89-99
      var invited := respond(|trace|);
      trace := trace + [Invite(cfg.org, user.id, InviteRole, [team.id])];
      if invited.Err? {
        return RunResult(trace, Failed(true));
      }
      rest := rest[1..];
      assert full == Execute(rest, respond, trace, failed);
      // index.js:100-110
      var commented := respond(|trace|);
      trace := trace + [Comment(cfg.org, cfg.repo, cfg.issueNumber, ApprovalComment(req.pm, req.name, req.email))];
      if commented.Err? {
        return RunResult(trace, Failed(true));
      }
      rest := rest[1..];
    } else {
      assert Decide(req.email, req.pm, cfg.suffix) == Rejected;
      // index.js:118-128
      var commented := respond(|trace|);
      trace := trace + [Comment(cfg.org, cfg.repo, cfg.issueNumber, RejectionComment(cfg.suffix))];
      if commented.Err? {
        return RunResult(trace, Failed(true));
      }
      rest := rest[1..];
      assert full == Execute(rest, respond, trace, failed);
      // index.js:129: the failed status is set, but the run goes on
      failed := true;
      rest := rest[1..];
    }
    assert full == Execute(rest, respond, trace, failed);

    // index.js:133-143
    var posted := respond(|trace|);
    trace := trace + [Comment(cfg.org, cfg.repo, cfg.issueNumber, cfg.successMessage)];
    if posted.Err? {
      return RunResult(trace, Failed(true));
    }
    rest := rest[1..];
    assert full == Execute(rest, respond, trace, failed);
    return RunResult(trace, if failed then Failed(false) else Passed);
  }

  // ---------------------------------------------------------------------
  // Properties of a run

  /** The oracle answers calls `lo` up to, not including, `hi` with success. */
  ghost predicate AllOk(respond: Oracle, lo: int, hi: int) {
    forall i: nat :: lo <= i < hi ==> respond(i).Ok?
  }

  /** The executor only ever issues the planned calls, in order: the trace
      grows by a prefix of them; every call but the last one issued
      succeeded; the run ends with `fail` exactly when the last call issued
      failed, and otherwise every planned call was made. */
  lemma {:induction false} ExecuteShape(steps: seq<Step>, respond: Oracle, done: seq<Action>, failed: bool)
    ensures var r := Execute(steps, respond, done, failed);
      done <= r.trace && r.trace <= done + Calls(steps) &&
      (r.status.Passed? || r.status.Failed?) &&
      AllOk(respond, |done|, |r.trace| - 1) &&
      (r.status == Failed(true) <==> |done| < |r.trace| && respond(|r.trace| - 1).Err?) &&
      (r.status != Failed(true) ==> r.trace == done + Calls(steps) && AllOk(respond, |done|, |r.trace|)) &&
      (r.status == Passed <==> r.status != Failed(true) && !failed && MarkFailed !in steps)
    decreases |steps|
  {
    if steps == [] {
      assert done + Calls(steps) == done;
    } else if steps[0].MarkFailed? {
      assert Execute(steps, respond, done, failed) == Execute(steps[1..], respond, done, true);
      ExecuteShape(steps[1..], respond, done, true);
      assert Calls(steps) == Calls(steps[1..]);
      assert steps == [steps[0]] + steps[1..];
    } else if respond(|done|).Err? {
      assert Execute(steps, respond, done, failed) == RunResult(done + [steps[0].action], Failed(true));
      assert Calls(steps) == [steps[0].action] + Calls(steps[1..]);
      assert done + [steps[0].action] <= done + Calls(steps);
    } else {
      var a := steps[0].action;
      assert Execute(steps, respond, done, failed) == Execute(steps[1..], respond, done + [a], failed);
      ExecuteShape(steps[1..], respond, done + [a], failed);
      assert Calls(steps) == [a] + Calls(steps[1..]);
      assert done + [a] + Calls(steps[1..]) == done + Calls(steps);
      assert steps == [steps[0]] + steps[1..];
    }
  }

  /** The calls each branch plans, in program order. */
  lemma PlannedCalls(req: Request, cfg: Config, userId: int, teamId: int)
    ensures var calls := Calls(Plan(req, cfg, userId, teamId));
      var head := [GetUser(req.username), GetTeam(cfg.org, cfg.team)];
      var invite := Invite(cfg.org, userId, InviteRole, [teamId]);
      var success := Comment(cfg.org, cfg.repo, cfg.issueNumber, cfg.successMessage);
      match Decide(req.email, req.pm, cfg.suffix)
      case AutoApproved =>
        calls == head + [invite, CloseIssue(cfg.org, cfg.repo, cfg.issueNumber), success]
      case PendingApproval =>
        calls == head + [invite, Comment(cfg.org, cfg.repo, cfg.issueNumber, ApprovalComment(req.pm, req.name, req.email)), success]
      case Rejected =>
        calls == head + [Comment(cfg.org, cfg.repo, cfg.issueNumber, RejectionComment(cfg.suffix)), success]
  {
    var plan := Plan(req, cfg, userId, teamId);
    assert Calls(plan[4..]) == [plan[4].action];
    assert Calls(plan[3..]) == (if plan[3].Call? then [plan[3].action] else []) + Calls(plan[4..]);
    assert Calls(plan[2..]) == [plan[2].action] + Calls(plan[3..]);
    assert Calls(plan[1..]) == [plan[1].action] + Calls(plan[2..]);
  }

  /** Requester email within the suffix: the invitation, then the issue is
      closed, then the success comment -- whatever the PM/COR email is.  The
      run passes exactly when every one of those calls succeeds, and
      otherwise stops at the first that fails. */
  lemma AutoApprovalRun(req: Request, cfg: Config, respond: Oracle)
    requires Occurs(req.email, cfg.suffix)
    ensures var r := Orchestrated(req, cfg, respond);
      r.trace <= [GetUser(req.username), GetTeam(cfg.org, cfg.team),
                  Invite(cfg.org, IdOf(respond(0)), InviteRole, [IdOf(respond(1))]),
                  CloseIssue(cfg.org, cfg.repo, cfg.issueNumber),
                  Comment(cfg.org, cfg.repo, cfg.issueNumber, cfg.successMessage)] &&
      (r.status == Passed <==> AllOk(respond, 0, 5)) &&
      (r.status == Passed || r.status == Failed(true))
  {
    var plan := Plan(req, cfg, IdOf(respond(0)), IdOf(respond(1)));
    ExecuteShape(plan, respond, [], false);
    PlannedCalls(req, cfg, IdOf(respond(0)), IdOf(respond(1)));
    assert MarkFailed !in plan;
  }

  /** Requester email outside the suffix, PM/COR email within it: the
      invitation, then exactly the comment `/approve --pm <pm> --name <name>
      --email <email>`, then the success comment. */
  lemma PmApprovalRun(req: Request, cfg: Config, respond: Oracle)
    requires !Occurs(req.email, cfg.suffix) && Occurs(req.pm, cfg.suffix)
    ensures var r := Orchestrated(req, cfg, respond);
      r.trace <= [GetUser(req.username), GetTeam(cfg.org, cfg.team),
                  Invite(cfg.org, IdOf(respond(0)), InviteRole, [IdOf(respond(1))]),
                  Comment(cfg.org, cfg.repo, cfg.issueNumber,
                          "/approve --pm " + req.pm + " --name " + req.name + " --email " + req.email),
                  Comment(cfg.org, cfg.repo, cfg.issueNumber, cfg.successMessage)] &&
      (r.status == Passed <==> AllOk(respond, 0, 5)) &&
      (r.status == Passed || r.status == Failed(true))
  {
    var plan := Plan(req, cfg, IdOf(respond(0)), IdOf(respond(1)));
    ExecuteShape(plan, respond, [], false);
    PlannedCalls(req, cfg, IdOf(respond(0)), IdOf(respond(1)));
    assert MarkFailed !in plan;
  }

  /** Neither email within the suffix: no invitation is ever created, the
      rejection comment names the suffix, and the run always fails -- yet
      when the rejection comment is posted the run goes on to attempt the
      success comment. */
  lemma RejectionRun(req: Request, cfg: Config, respond: Oracle)
    requires !Occurs(req.email, cfg.suffix) && !Occurs(req.pm, cfg.suffix)
    ensures var r := Orchestrated(req, cfg, respond);
      r.trace <= [GetUser(req.username), GetTeam(cfg.org, cfg.team),
                  Comment(cfg.org, cfg.repo, cfg.issueNumber, RejectionComment(cfg.suffix)),
                  Comment(cfg.org, cfg.repo, cfg.issueNumber, cfg.successMessage)] &&
      Occurs(RejectionComment(cfg.suffix), cfg.suffix) &&
      r.status.Failed? &&
      (AllOk(respond, 0, 3) ==> |r.trace| == 4) &&
      (r.status == Failed(false) <==> AllOk(respond, 0, 4))
  {
    var plan := Plan(req, cfg, IdOf(respond(0)), IdOf(respond(1)));
    ExecuteShape(plan, respond, [], false);
    PlannedCalls(req, cfg, IdOf(respond(0)), IdOf(respond(1)));
    assert plan[3] == MarkFailed;
    var prefix := "PM/COR email must be in the ";
    assert RejectionComment(cfg.suffix) == prefix + cfg.suffix + " domain, please update the original";
    assert (prefix + cfg.suffix + " domain, please update the original")[|prefix|..] ==
           cfg.suffix + " domain, please update the original";
    assert OccursAt(RejectionComment(cfg.suffix), cfg.suffix, |prefix|);
  }

  /** A failure in any remote call ends the run failed, and no later call
      is ever issued: the failing call is the last one in the trace.
      Conversely the run ends through `fail` only when its last call
      failed. */
  lemma FailureStopsRun(req: Request, cfg: Config, respond: Oracle)
    ensures var r := Orchestrated(req, cfg, respond);
      (forall i: nat :: i < |r.trace| && respond(i).Err? ==>
         i == |r.trace| - 1 && r.status == Failed(true)) &&
      (r.status == Failed(true) <==> r.trace != [] && respond(|r.trace| - 1).Err?)
  {
    ExecuteShape(Plan(req, cfg, IdOf(respond(0)), IdOf(respond(1))), respond, [], false);
  }

  /** A failed user or team lookup ends the run before any invitation,
      comment or change to the issue. */
  lemma LookupFailureStopsRun(req: Request, cfg: Config, respond: Oracle)
    ensures var r := Orchestrated(req, cfg, respond);
      (respond(0).Err? ==> r == RunResult([GetUser(req.username)], Failed(true))) &&
      (respond(0).Ok? && respond(1).Err? ==>
         r == RunResult([GetUser(req.username), GetTeam(cfg.org, cfg.team)], Failed(true)))
  {
    var plan := Plan(req, cfg, IdOf(respond(0)), IdOf(respond(1)));
    assert plan[0] == Call(GetUser(req.username)) && plan[1] == Call(GetTeam(cfg.org, cfg.team));
    assert [] + [GetUser(req.username)] == [GetUser(req.username)];
    if respond(0).Ok? {
      assert Execute(plan, respond, [], false) ==
             Execute(plan[1..], respond, [GetUser(req.username)], false);
    }
  }

  /** An invitation is only ever the third call, made after both lookups
      succeeded, for the user and team ids they returned; it comes before
      the closing of the issue and before any comment. */
  lemma InviteFollowsLookups(req: Request, cfg: Config, respond: Oracle)
    ensures var r := Orchestrated(req, cfg, respond);
      forall i :: 0 <= i < |r.trace| && r.trace[i].Invite? ==>
        i == 2 && respond(0).Ok? && respond(1).Ok? &&
        r.trace[i] == Invite(cfg.org, respond(0).id, InviteRole, [respond(1).id]) &&
        (forall j :: 0 <= j < |r.trace| && (r.trace[j].CloseIssue? || r.trace[j].Comment?) ==> i < j)
  {
    var userId, teamId := IdOf(respond(0)), IdOf(respond(1));
    var plan := Plan(req, cfg, userId, teamId);
    ExecuteShape(plan, respond, [], false);
    PlannedInvite(req, cfg, userId, teamId);
  }

  /** In every plan the invitation can only be the third call, for the ids
      the plan was given, and no comment or closing comes before it. */
  lemma PlannedInvite(req: Request, cfg: Config, userId: int, teamId: int)
    ensures var calls := Calls(Plan(req, cfg, userId, teamId));
      forall i :: 0 <= i < |calls| && calls[i].Invite? ==>
        i == 2 && calls[i] == Invite(cfg.org, userId, InviteRole, [teamId]) &&
        (forall j :: 0 <= j < |calls| && (calls[j].CloseIssue? || calls[j].Comment?) ==> i < j)
  {
    PlannedCalls(req, cfg, userId, teamId);
  }

  /** When no call failed, the last action of every branch is the success
      comment with the configured message. */
  lemma SuccessCommentLast(req: Request, cfg: Config, respond: Oracle)
    ensures var r := Orchestrated(req, cfg, respond);
      r.status != Failed(true) ==>
        4 <= |r.trace| && r.trace[|r.trace| - 1] == Comment(cfg.org, cfg.repo, cfg.issueNumber, cfg.successMessage)
  {
    ExecuteShape(Plan(req, cfg, IdOf(respond(0)), IdOf(respond(1))), respond, [], false);
    PlannedCalls(req, cfg, IdOf(respond(0)), IdOf(respond(1)));
  }
}
