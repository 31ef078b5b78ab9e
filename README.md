# warden-invite, modelled in Dafny

warden-invite is a GitHub Action that turns an access-request issue into
organisation access. Its `main` (index.js) does three things:

- It reads four answers out of the issue-form body: full name, email,
  GitHub username and PM/COR email.
- It decides from two `includes` tests against a configured suffix.
- It runs a fixed sequence of remote calls:
  - look up the user and the team;
  - then invite and close the issue, invite and post an approval comment,
    or post a rejection comment;
  - then post a success comment.

Any failing call goes through `fail`, which sets the failed status and
exits.

The model has five modules, one file each:

- `JsText` (jstext.dfy) covers the JavaScript string operations `main`
  relies on:
  - `String.prototype.includes`;
  - `trim`, with its white-space set;
  - `split` on the four-character text backslash-n-backslash-n;
  - the line terminators that stop a regular expression's `.`.
- `Extraction` (extraction.dfy) models index.js:36-42:
  - the leftmost, greedy match of `<heading>.+###` (or `PM/COR Email.+`),
    where `.` never crosses a line terminator;
  - piece [1] of the split, trimmed;
  - the `@` rule for the username;
  - the order in which a missing field throws.
- `IssueForm` (issueform.dfy) renders a request the way the issue form lays
  it out: `### <heading>`, an escaped blank line and the answer, for each
  section in form order. It proves that extraction reads every plain
  answer back.
- `Policy` (policy.dfy) is the three-way decision of index.js:64 and
  index.js:88.
- `Orchestration` (orchestration.dfy) models the remote-call sequence of
  index.js:44-143 and `fail` (index.js:146-149):
  - Every call is an `Action` appended to a trace when it is issued.
  - An oracle answers the k-th call with success (carrying the returned
    object's id) or with a thrown error.
  - The `Orchestrate` method follows `main` statement by statement. It is
    proved equal to a reference semantics: a per-branch `Plan` of steps run
    by an executor, `Execute`, that stops at the first failing call.
  - The lemmas state each branch's trace and status in terms of that
    reference.

Behaviours of index.js that the model keeps as written:

- **Auto-approved order.** The branch invites, closes the issue, and only
  then posts the success comment.
- **Rejection.** The rejection branch sets the failed status without
  exiting. So it goes on to post the success comment, and the run ends
  failed even when every call succeeded.
- **Username.** A username containing `@` anywhere loses its first
  character: `@octocat` becomes `octocat`, but `octo@cat` becomes
  `cto@cat`.
- **Suffix test.** The suffix is tested by substring containment, not as a
  domain suffix: `@agency.gov` matches `jane@agency.gov.example.com`.
- **Layout.** `RenderedFormReadsBack` shows that extraction reads a body
  back only under two conditions on the layout:
  - the PM/COR email section comes after the Email section; otherwise
    `Email.+###` would match inside its heading;
  - every field read with `.+###` is followed by another section.

## Model

| member | source | states |
|---|---|---|
| JsText.Includes | index.js:40 | `s.includes(sub)` is true exactly when `sub` occurs in `s` at some index |
| JsText.TrimStart | index.js:36 | drops exactly a leading run of JavaScript white space; what is left is a suffix of the input that starts with a non-space |
| JsText.TrimEnd | index.js:36 | drops exactly a trailing run of JavaScript white space; what is left is a prefix of the input that ends with a non-space |
| JsText.Trim | index.js:36 | the trimmed text is no longer than the input and is empty or starts and ends with a non-space |
| JsText.TrimPadded | index.js:36 | text with no white space at either end, padded on both sides by white space, trims back to itself |
| JsText.FindSep | index.js:36 | finds the first position at or after `from` where the separator starts, or reports that there is none |
| JsText.Split | index.js:36 | `split('\\n\\n')` gives at least one piece; joined with the separator, the pieces give back the input; no piece holds the separator; no occurrence starts inside a piece and runs on into the separator after it (cuts are at the leftmost occurrence); there are two or more pieces exactly when the input holds one |
| JsText.SplitAfter | index.js:36 | a text with no backslash, followed by the separator, splits into that text and then the split of the rest |
| JsText.SplitJoin | index.js:36 | split inverts join for pieces with no backslash |
| JsText.SplitUnique | index.js:36 | the contract of `split` fixes its result: any pieces that join back to the input, hold no separator and are cut at the leftmost occurrence are the pieces returned |
| JsText.SplitOverlapping | index.js:36 | occurrences are taken from the left: backslash-n three times splits into an empty piece and `\\n` |
| Extraction.LineEnd | index.js:36 | the end of the current line: no line terminator before it, and a line terminator at it unless it is the end of the text |
| Extraction.LastMarkerEnd | index.js:36 | the last end of a `###` within a range, or none in that range |
| Extraction.MatchWithinLine | index.js:36 | a match never reaches past the line its heading is on |
| Extraction.ProbeAt | index.js:36 | at a given start, the longest match of the pattern (greedy `.+`), or no match at that start |
| Extraction.FindFrom | index.js:36-39 | the leftmost start at which the pattern matches, with the longest match there, or no match anywhere |
| Extraction.FindsLeftmostLongest | index.js:36-39 | whatever match starts leftmost and is longest there is the one the search returns |
| Extraction.SecondPiece | index.js:36 | piece [1] exists exactly when the matched text holds the separator; it is the text between the first separator and the next one (or the end), trimmed; it has no white space at either end |
| Extraction.PieceOneOfSplit | index.js:36 | piece [1] of the split is the text from the end of the first separator to the start of the next one, or to the end |
| Extraction.PieceOneExists | index.js:36 | a text that holds the separator has such a piece [1] |
| Extraction.FieldText | index.js:36-39 | no match gives no field; the field is read exactly when the leftmost-longest match holds the separator, and then it is piece [1] of that match, trimmed; a match without a separator gives no field, as `[1].trim()` throws there |
| Extraction.NormalizeUsername | index.js:40-42 | a username with `@` anywhere loses exactly its first character; any other is unchanged |
| Extraction.UsernameExamples | index.js:40-42 | `@octocat` and `octocat` both give `octocat`, but `octo@cat` gives `cto@cat` |
| Extraction.ExtractRequest | index.js:36-42 | fields are read in source order and the first missing one is reported; extraction succeeds exactly when all four can be read, and then the request holds the read name, email and PM/COR email and the normalized username |
| IssueForm.TerminatedMatch | index.js:36-39 | on a one-line body, a match that starts where its heading first occurs, ends with `###`, and has no `#` after it, is the match that is read, so the field is piece [1] of it |
| IssueForm.UnterminatedMatch | index.js:38 | the PM/COR field reads as piece [1] of the rest of the line from its heading |
| IssueForm.FullNameReads | index.js:36 | the full name of a rendered form reads back as entered |
| IssueForm.EmailReads | index.js:37 | the email reads back as entered when the full name does not hold `Email` |
| IssueForm.PmEmailReads | index.js:38 | the PM/COR email reads back as entered when the full name holds no `Email` and neither the email nor the username holds `PM/COR Email` |
| IssueForm.UsernameReads | index.js:39 | the username text reads back as entered when neither the full name nor the email holds `GitHub Username` |
| IssueForm.RenderedFormReadsBack | index.js:36-42 | extraction inverts the form: for plain one-line answers that do not hold a later heading, the request extracted from the rendered body is the one entered, with the username put through the `@` rule |
| IssueForm.MentionReadsBack | index.js:39-42 | a username entered as an `@` mention of a login reads back as that login |
| Policy.Decide | index.js:64-88 | auto-approved exactly when the requester email contains the suffix; pending approval exactly when it does not and the PM/COR email does; rejected exactly when neither does |
| Policy.SuffixMatchesInsideDomain | index.js:64 | the suffix matches anywhere in the email, so `@agency.gov` approves `jane@agency.gov.example.com` |
| Policy.SuffixMatchesLongerDomain | index.js:64 | `agency.gov` approves `a@notagency.gov` |
| Policy.DecisionExamples | index.js:88 | an outside requester with an inside PM/COR is pending; with both outside the request is rejected |
| Orchestration.Run | index.js:35-144 | a run does what the reference semantics says; it ends with an extraction error exactly when a field cannot be read, and then makes no remote call |
| Orchestration.Orchestrate | index.js:44-143 | the statement-by-statement run of the remote calls equals the reference execution of the planned calls, and ends passed or failed |
| Orchestration.ExecuteShape | index.js:146-149 | the trace is the calls made so far plus a prefix of the planned calls; every call but the last succeeded; the run ends through `fail` exactly when the last call issued failed, and otherwise every planned call was made; it passes exactly when it did not fail and no failed status was set |
| Orchestration.PlannedCalls | index.js:44-143 | in each branch, the calls in program order: user lookup, team lookup, then invite and close, or invite and approval comment, or rejection comment, then the success comment |
| Orchestration.AutoApprovalRun | index.js:64-86 | requester email inside the suffix: the trace is a prefix of lookup, lookup, invite, close, success comment, whatever the PM/COR email; the run passes exactly when all five calls succeed, and otherwise fails through `fail` |
| Orchestration.PmApprovalRun | index.js:88-110 | PM/COR email alone inside the suffix: the trace is a prefix of lookup, lookup, invite, exactly `/approve --pm <pm> --name <name> --email <email>`, success comment; the run passes exactly when all five succeed |
| Orchestration.RejectionRun | index.js:111-143 | neither email inside the suffix: no invitation; the rejection comment holds the suffix; the run always ends failed; once the first three calls succeed the success comment is still attempted; it ends without `fail` exactly when all four calls succeed |
| Orchestration.FailureStopsRun | index.js:46-63 | a failing call is the last entry of the trace and ends the run through `fail`; the run ends through `fail` only when its last call failed |
| Orchestration.LookupFailureStopsRun | index.js:46-63 | a failed user lookup leaves only that lookup in the trace; a failed team lookup leaves only the two lookups |
| Orchestration.PlannedInvite | index.js:64-99 | in every plan, an invitation can only be the third call, for the ids the lookups returned, and comes before any close or comment |
| Orchestration.InviteFollowsLookups | index.js:44-99 | in every run, an invitation is only the third action, made after both lookups succeeded, for the user and team ids they returned, and before any close or comment |
| Orchestration.SuccessCommentLast | index.js:133-143 | when no call failed, the last action of every branch is the success comment with the configured message |

## Left out

- The Octokit client, its retry and throttling plugins and the rate-limit
  callbacks (index.js:17-33) are not modelled. Each remote call is one
  oracle answer, success or failure, and the client's own retries are
  assumed to have happened inside it.
- Reading the inputs with `core.getInput` (index.js:7-14) is not modelled,
  and neither are the token and the `Number` conversion of the issue
  number. The inputs are fields of `Config`, and the issue number is an
  integer; a `NaN` issue number is not represented.
- `console.log` output, the error text built from the caught error, and
  the `JSON.stringify` of the inputs in the rejection message
  (index.js:129) are left out. The model records only whether the run
  failed and whether it exited.
- `process.exit` and `async`/`await` are modelled as an early return with
  `Failed(true)`. The run is strictly sequential.
- Strings are sequences of characters with no UTF-16 code units.
  `substr(1)` on a username whose first character is a surrogate pair is
  not modelled.
- Only the regular-expression shapes index.js builds are modelled: a
  literal heading, `.+`, then `###` or the end. There is no general
  regular-expression engine.
- Orchestration.IdOf: when a lookup fails, its id is never used, because
  `fail` exits first. The model supplies 0 for it, and no lemma depends on
  that value.
- JsText.Trim: the contract states only the bound and the non-space ends.
  That the result is the input with its white-space ends removed is stated
  by JsText.TrimPadded.
- IssueForm.RenderedFormReadsBack: the round trip is proved only for
  answers on one line without `#` or backslash, and in the form's section
  order. Answers with escaped line breaks, or a body in which a later
  heading appears inside an earlier answer, read differently and are not
  covered.
