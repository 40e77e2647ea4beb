/**
 Change requests in `RepoCoordinator`: the quality barrier, the sanitising sweep, and the submit,
 approve, reject, request-changes and QA handlers, each as one atomic step on the stored change
 requests and the task list. Display text and traces are not kept.
 */
module ChangeRequests {
  import opened Prelude
  import opened Text
  import opened Tasks
  import Envelopes
  import Hex

  datatype CrStatus = PendingReview | ChangesRequested | AutoMerged | Approved | Rejected | FailedVerification

  datatype RiskLevel = Low | High | Review

  datatype QaStatus = QaUnset | QaPending | QaRunning | QaPassed | QaFailed

  datatype TestReport = TestReport(passed: bool, testExitCode: Option<int>, exitCode: Option<int>)

  datatype Approval = Approval(reviewerPubkey: string, supervisorName: string, signature: string, timestamp: int)

  /** A SHA as the barrier compares it: trimmed and in lower case, or nothing. */
  function CompareSha(sha: string): Option<string> {
    var trimmed := Trim(sha);
    if trimmed == "" || trimmed == "not run" then None else Some(ToLower(trimmed))
  }

  datatype ChangeRequest = ChangeRequest(
    id: string, taskId: string, title: string, commitId: string, commitSha: string, diff: string,
    testReport: Option<TestReport>, buildFailed: bool, touchedFiles: seq<string>, tags: seq<string>,
    riskLevel: RiskLevel, needsSecondHuman: bool, qaReportsFailed: seq<bool>, qaStatus: QaStatus,
    createdAt: int, status: CrStatus, firstApproval: Option<Approval>, secondApproval: Option<Approval>)
  {
    /** `cr.commit_sha || cr.commit_id`; an absent SHA is the empty string. */
    function Sha(): string {
      if commitSha != "" then commitSha else commitId
    }

    /** `test_exit_code ?? exit_code` */
    function ExitCode(): Option<int> {
      if testReport.None? then None
      else if testReport.value.testExitCode.Some? then testReport.value.testExitCode
      else testReport.value.exitCode
    }

    function BarrierSha(): Option<string> {
      CompareSha(Sha())
    }

    /** Still up for review: what the sweep looks at. */
    predicate Active() {
      status == PendingReview || status == ChangesRequested
    }
  }

  type Crs = map<string, ChangeRequest>

  // ---------------------------------------------------------------------------------------
  // The quality barrier
  // ---------------------------------------------------------------------------------------

  datatype Verdict = Valid | BuildFailed | QaChecksFailed | ShaMissing | ShaReused | NoDiff

  function BuildOk(cr: ChangeRequest): bool {
    && !cr.buildFailed
    && !(cr.testReport.Some? && !cr.testReport.value.passed)
    && (cr.ExitCode() == None || cr.ExitCode() == Some(0))
  }

  function QaOk(cr: ChangeRequest): bool {
    cr.qaStatus != QaFailed && true !in cr.qaReportsFailed
  }

  function DiffOk(cr: ChangeRequest): bool {
    Trim(cr.diff) != "" && !Contains(Trim(cr.diff), "(No file changes diff attached)")
  }

  /** `other` has the same commit and is of another task, or older. */
  function Clashes(cr: ChangeRequest, other: ChangeRequest): bool {
    && other.id != cr.id
    && other.BarrierSha().Some? && other.BarrierSha() == cr.BarrierSha()
    && (other.taskId != cr.taskId || other.createdAt < cr.createdAt)
  }

  function Quality(cr: ChangeRequest, all: Crs): Verdict {
    if !BuildOk(cr) then BuildFailed
    else if !QaOk(cr) then QaChecksFailed
    else if cr.BarrierSha().None? then ShaMissing
    else if exists k :: k in all && Clashes(cr, all[k]) then ShaReused
    else if !DiffOk(cr) then NoDiff
    else Valid
  }

  /** What the barrier asks of the fields: no failed build, no failing tests, no failed QA, a commit,
      a diff, and that every other change request with the commit, blanks and case aside, belongs to
      the same task and is not older. */
  lemma QualityMeans(cr: ChangeRequest, all: Crs)
    ensures Quality(cr, all) == Valid <==>
              && BuildOk(cr) && QaOk(cr) && DiffOk(cr) && cr.BarrierSha().Some?
              && forall k :: k in all && all[k].id != cr.id && all[k].BarrierSha() == cr.BarrierSha() ==>
                   all[k].taskId == cr.taskId && all[k].createdAt >= cr.createdAt
  {
    if exists k :: k in all && Clashes(cr, all[k]) {
      var k :| k in all && Clashes(cr, all[k]);
      assert all[k].id != cr.id && all[k].BarrierSha() == cr.BarrierSha();
    } else if cr.BarrierSha().Some? {
      forall k | k in all && all[k].id != cr.id && all[k].BarrierSha() == cr.BarrierSha()
        ensures all[k].taskId == cr.taskId && all[k].createdAt >= cr.createdAt
      {
        assert !Clashes(cr, all[k]);
      }
    }
  }

  /** A failed build, failing tests or a recorded exit code other than zero never pass; the test exit
      code counts before the other one. */
  lemma FailedTestsNeverPass(cr: ChangeRequest, all: Crs)
    ensures Quality(cr, all) == BuildFailed <==>
              || cr.buildFailed
              || (cr.testReport.Some? && !cr.testReport.value.passed)
              || (cr.testReport.Some? && cr.testReport.value.testExitCode.Some?
                  && cr.testReport.value.testExitCode.value != 0)
              || (cr.testReport.Some? && cr.testReport.value.testExitCode.None?
                  && cr.testReport.value.exitCode.Some? && cr.testReport.value.exitCode.value != 0)
  {
  }

  /** A QA status or a QA report of failure never passes, nor an empty diff or the placeholder for
      one, nor a blank commit or "not run". */
  lemma IncompleteNeverPasses(cr: ChangeRequest, all: Crs)
    requires Quality(cr, all) == Valid
    ensures cr.qaStatus != QaFailed && true !in cr.qaReportsFailed
    ensures Trim(cr.diff) != "" && !Contains(Trim(cr.diff), "(No file changes diff attached)")
    ensures var sha := if cr.commitSha != "" then cr.commitSha else cr.commitId; Trim(sha) !in {"", "not run"}
  {
  }

  /** Another change request with the same commit, blanks and case aside, of another task or older. */
  predicate IsReuse(cr: ChangeRequest, other: ChangeRequest) {
    var sha := if cr.commitSha != "" then cr.commitSha else cr.commitId;
    var otherSha := if other.commitSha != "" then other.commitSha else other.commitId;
    && other.id != cr.id && Trim(otherSha) !in {"", "not run"} && ToLower(Trim(otherSha)) == ToLower(Trim(sha))
    && (other.taskId != cr.taskId || other.createdAt < cr.createdAt)
  }

  lemma ReuseIsClash(cr: ChangeRequest, other: ChangeRequest)
    requires Trim(cr.Sha()) !in {"", "not run"}
    ensures Clashes(cr, other) <==> IsReuse(cr, other)
  {
    hide Trim, ToLower;
  }

  /** And these are the only grounds for refusal, but for a reused commit. */
  lemma CompletePassesIff(cr: ChangeRequest, all: Crs)
    requires Quality(cr, all) != BuildFailed && cr.qaStatus != QaFailed && true !in cr.qaReportsFailed
    requires var sha := if cr.commitSha != "" then cr.commitSha else cr.commitId; Trim(sha) !in {"", "not run"}
    requires Trim(cr.diff) != "" && !Contains(Trim(cr.diff), "(No file changes diff attached)")
    ensures Quality(cr, all) != Valid <==>
              exists k :: k in all && IsReuse(cr, all[k])
    ensures Quality(cr, all) != Valid ==> Quality(cr, all) == ShaReused
  {
    forall k | k in all ensures Clashes(cr, all[k]) <==> IsReuse(cr, all[k]) {
      ReuseIsClash(cr, all[k]);
    }
    hide IsReuse;
    if exists k :: k in all && Clashes(cr, all[k]) {
      var k :| k in all && Clashes(cr, all[k]);
      assert IsReuse(cr, all[k]);
    }
    if exists k :: k in all && IsReuse(cr, all[k]) {
      var k :| k in all && IsReuse(cr, all[k]);
      assert Clashes(cr, all[k]);
    }
  }

  ghost predicate SameSubmission(a: ChangeRequest, b: ChangeRequest) {
    b == a.(status := b.status, firstApproval := b.firstApproval, secondApproval := b.secondApproval)
  }

  /** The same change requests, except for their review status and approvals. */
  ghost predicate SameSubmissions(before: Crs, after: Crs) {
    after.Keys == before.Keys && forall k :: k in before ==> SameSubmission(before[k], after[k])
  }

  lemma ChecksIgnoreReview(a: ChangeRequest, b: ChangeRequest)
    requires SameSubmission(a, b)
    ensures BuildOk(a) == BuildOk(b) && QaOk(a) == QaOk(b) && DiffOk(a) == DiffOk(b)
    ensures a.BarrierSha() == b.BarrierSha()
  {
    hide Trim, Contains, ToLower;
  }

  lemma ClashesIgnoreReview(a: ChangeRequest, b: ChangeRequest, x: ChangeRequest, y: ChangeRequest)
    requires SameSubmission(a, b) && SameSubmission(x, y)
    ensures Clashes(a, x) == Clashes(b, y)
  {
    ChecksIgnoreReview(a, b);
    ChecksIgnoreReview(x, y);
  }

  lemma QualityIgnoresReview(a: ChangeRequest, b: ChangeRequest, before: Crs, after: Crs)
    requires SameSubmission(a, b) && SameSubmissions(before, after)
    ensures Quality(a, before) == Quality(b, after)
  {
    ChecksIgnoreReview(a, b);
    forall k | k in before ensures Clashes(a, before[k]) == Clashes(b, after[k]) {
      ClashesIgnoreReview(a, b, before[k], after[k]);
    }
    assert after.Keys == before.Keys;
    hide SameSubmission, SameSubmissions, BuildOk, QaOk, DiffOk, Clashes;
    if exists k :: k in before && Clashes(a, before[k]) {
      var k :| k in before && Clashes(a, before[k]);
      assert k in after && Clashes(b, after[k]);
    }
    if exists k :: k in after && Clashes(b, after[k]) {
      var k :| k in after && Clashes(b, after[k]);
      assert k in before && Clashes(a, before[k]);
    }
  }

  // ---------------------------------------------------------------------------------------
  // The sanitising sweep
  // ---------------------------------------------------------------------------------------

  predicate Fails(crs: Crs, k: string) {
    k in crs && crs[k].Active() && Quality(crs[k], crs) != Valid
  }

  /** Task `i` is in review for a change request of its own that fails the barrier. */
  predicate Abandoned(crs: Crs, tasks: seq<Task>, i: nat)
    requires i < |tasks|
  {
    var t := tasks[i];
    && IsFirst(tasks, i)
    && t.status == InReview && t.changeRequestId.Some?
    && Fails(crs, t.changeRequestId.value) && crs[t.changeRequestId.value].taskId == t.id
  }

  function Released(t: Task): Task {
    t.(status := Open, changeRequestId := None, claimedBy := None)
  }

  /** `sanitizeAndVerifyCRs`: failing change requests are marked, and the tasks still waiting for
      them are opened again. No order of visiting appears in it. */
  function Sweep(crs: Crs, tasks: seq<Task>): (Crs, seq<Task>) {
    (map k | k in crs :: if Fails(crs, k) then crs[k].(status := FailedVerification) else crs[k],
     seq(|tasks|, i requires 0 <= i < |tasks| => if Abandoned(crs, tasks, i) then Released(tasks[i]) else tasks[i]))
  }

  /** The sweep after visiting some of the keys. */
  function SweptCrs(crs: Crs, seen: seq<string>): Crs {
    map k | k in crs :: if k in seen && Fails(crs, k) then crs[k].(status := FailedVerification) else crs[k]
  }

  function SweptTasks(crs: Crs, tasks: seq<Task>, seen: seq<string>): seq<Task> {
    seq(|tasks|, i requires 0 <= i < |tasks| =>
      if Abandoned(crs, tasks, i) && tasks[i].changeRequestId.value in seen then Released(tasks[i]) else tasks[i])
  }

  /** Lets go of the task of one failed change request. */
  function ReleaseFor(tasks: seq<Task>, taskId: string, k: string): seq<Task> {
    UpdateFirst(tasks, taskId, (t: Task) =>
      if t.status == InReview && t.changeRequestId == Some(k) then Released(t) else t)
  }

  /** Visiting one more key, in whatever order, completes the sweep a little further. */
  lemma SweepStep(crs: Crs, tasks: seq<Task>, seen: seq<string>, k: string)
    requires k in crs && k !in seen
    ensures SweptCrs(crs, seen + [k])
         == if Fails(crs, k) then SweptCrs(crs, seen)[k := crs[k].(status := FailedVerification)]
           else SweptCrs(crs, seen)
    ensures SweptTasks(crs, tasks, seen + [k])
         == if Fails(crs, k) then ReleaseFor(SweptTasks(crs, tasks, seen), crs[k].taskId, k)
           else SweptTasks(crs, tasks, seen)
    ensures SameSubmissions(crs, SweptCrs(crs, seen)) && SweptCrs(crs, seen)[k] == crs[k]
  {
    hide Fails;
    var before := SweptTasks(crs, tasks, seen);
    forall i | 0 <= i < |tasks| ensures IsFirst(before, i) == IsFirst(tasks, i) {
      FindBySameIds(tasks, before, tasks[i].id);
    }
  }

  lemma FailsMeans(crs: Crs, k: string)
    ensures Fails(crs, k) <==> k in crs && crs[k].Active() && Quality(crs[k], crs) != Valid
  {
  }

  lemma SweepBegins(crs: Crs, tasks: seq<Task>)
    ensures SweptCrs(crs, []) == crs && SweptTasks(crs, tasks, []) == tasks
  {
  }

  lemma SweepComplete(crs: Crs, tasks: seq<Task>, keys: seq<string>)
    requires forall k :: k in crs ==> k in keys
    ensures Sweep(crs, tasks) == (SweptCrs(crs, keys), SweptTasks(crs, tasks, keys))
  {
    assert Sweep(crs, tasks).0 == SweptCrs(crs, keys);
    assert Sweep(crs, tasks).1 == SweptTasks(crs, tasks, keys);
  }

  lemma SweepKeepsSubmissions(crs: Crs, tasks: seq<Task>)
    ensures SameSubmissions(crs, Sweep(crs, tasks).0)
    ensures SameIds(tasks, Sweep(crs, tasks).1)
  {
    assert Sweep(crs, tasks).0.Keys == crs.Keys;
  }

  /** Sweeping twice is sweeping once, and what is still up for review passes the barrier against
      the whole store. */
  lemma SweepIsIdempotent(crs: Crs, tasks: seq<Task>)
    ensures var (crs', tasks') := Sweep(crs, tasks);
            && (forall k :: k in crs' && crs'[k].Active() ==> Quality(crs'[k], crs') == Valid)
            && Sweep(crs', tasks') == (crs', tasks')
  {
    var (crs', tasks') := Sweep(crs, tasks);
    SweepKeepsSubmissions(crs, tasks);
    forall k | k in crs' ensures crs'[k].Active() ==> Quality(crs'[k], crs') == Valid {
      QualityIgnoresReview(crs[k], crs'[k], crs, crs');
    }
    forall k ensures !Fails(crs', k) {
    }
    assert Sweep(crs', tasks').0 == crs';
    assert Sweep(crs', tasks').1 == tasks';
  }

  /** After a sweep, every change request with the commit of a survivor has the survivor's task
      and is not older than it. */
  lemma SurvivorsOwnTheirCommits(crs: Crs, tasks: seq<Task>, k: string, other: string)
    requires k in crs && other in crs && crs[k].id != crs[other].id
    requires var crs' := Sweep(crs, tasks).0; crs'[k].Active() && crs'[k].BarrierSha() == crs'[other].BarrierSha()
    ensures crs[other].taskId == crs[k].taskId && crs[other].createdAt >= crs[k].createdAt
  {
    var crs' := Sweep(crs, tasks).0;
    SweepIsIdempotent(crs, tasks);
    QualityMeans(crs'[k], crs');
    assert crs'[other].id == crs[other].id;
  }

  // ---------------------------------------------------------------------------------------
  // Submit
  // ---------------------------------------------------------------------------------------

  /** The union of two tag lists, duplicates dropped. */
  function Union(a: seq<string>, b: seq<string>): (u: seq<string>)
    ensures forall t :: t in u <==> t in a || t in b
    decreases |a| + |b|
  {
    if b != [] then
      var rest := Union(a, b[..|b| - 1]);
      assert b == b[..|b| - 1] + [b[|b| - 1]];
      if b[|b| - 1] in rest then rest else rest + [b[|b| - 1]]
    else if a != [] then
      var rest := Union(a[..|a| - 1], []);
      assert a == a[..|a| - 1] + [a[|a| - 1]];
      if a[|a| - 1] in rest then rest else rest + [a[|a| - 1]]
    else []
  }

  predicate NeedsDesign(tags: seq<string>) {
    "needs-page" in tags || "needs-logic" in tags
  }

  /** The change request as stored: with its task's tags, and high risk if they call for it. */
  function Prepared(cr: ChangeRequest, tasks: seq<Task>): ChangeRequest {
    var i := Find(tasks, cr.taskId);
    var tagged := if i.Some? && tasks[i.value].tags != [] then cr.(tags := Union(cr.tags, tasks[i.value].tags)) else cr;
    if NeedsDesign(tagged.tags) then tagged.(riskLevel := High) else tagged
  }

  datatype SubmitOutcome = MissingId | Refused(verdict: Verdict) | Submitted

  /** `handleSubmitCR`: a submission that fails the barrier is stored as failed. */
  function Submit(crs: Crs, tasks: seq<Task>, cr: ChangeRequest): (SubmitOutcome, Crs, seq<Task>) {
    if cr.id == "" then (MissingId, crs, tasks)
    else
      var verdict := Quality(cr, crs);
      if verdict != Valid then (Refused(verdict), crs[cr.id := cr.(status := FailedVerification)], tasks)
      else
        (Submitted, crs[cr.id := Prepared(cr, tasks)],
         UpdateFirst(tasks, cr.taskId, (t: Task) => t.(status := InReview, changeRequestId := Some(cr.id))))
  }

  // ---------------------------------------------------------------------------------------
  // Approve
  // ---------------------------------------------------------------------------------------

  /** What the handlers take as given: the allowed supervisor keys in normal form, Ed25519
      verification of a signature over a message under a key, and the UTF-8 encoding. */
  datatype Env = Env(supervisors: set<string>, verify: (Bytes, Bytes, Bytes) -> bool, utf8: string -> Bytes)

  function SupervisorName(pubkey: string): string {
    var norm := ToLower(Trim(pubkey));
    if pubkey == "" then "Human Supervisor"
    else if "7988cfd6" <= norm || "91f13001" <= norm || "fc8f1671" <= norm then "Ashley (Supervisor)"
    else if "00a1ab12" <= norm || "15eb471d" <= norm || "b81765c7" <= norm then "Ward (Supervisor)"
    else "Supervisor (" + (if |pubkey| > 8 then pubkey[..8] else pubkey) + ")"
  }

  /** The request, with the outcome of admin authentication, which this model does not look into. */
  datatype ApproveRequest = ApproveRequest(
    crId: string, reviewerPubkey: string, signature: string, timestamp: int, rationale: string, isAdmin: bool)
  {
    /** The approval it asks to record. */
    function Given(): Approval {
      Approval(reviewerPubkey, SupervisorName(reviewerPubkey), signature, timestamp)
    }
  }

  /** A key of 32 and a signature of 64 bytes that verify over the approval envelope. */
  predicate SignatureValid(env: Env, crId: string, a: Approval, rationale: string) {
    var key, signature := Hex.HexToBytes(a.reviewerPubkey), Hex.HexToBytes(a.signature);
    && |key| == 32 && |signature| == 64
    && env.verify(key, Envelopes.ApproveEnvelope(a.timestamp, env.utf8(crId), env.utf8(rationale)), signature)
  }

  datatype ApproveOutcome =
    | UnknownSupervisor | NotAdmin | NotFound | MissingSignature | BadSignature
    | Blocked | FirstOfTwo | SameSupervisor | ApprovedAndMerged

  /** `isSupervisorKeyAllowed`, with the allowed keys in normal form. */
  predicate KeyAllowed(supervisors: set<string>, pubkey: string) {
    pubkey != "" && ToLower(Trim(pubkey)) in supervisors
  }

  /** Approvals of one person: the same key, or the same known supervisor under two keys. */
  predicate SamePerson(a: Approval, b: Approval) {
    var nameA, nameB := ToLower(a.supervisorName), ToLower(b.supervisorName);
    || ToLower(a.reviewerPubkey) == ToLower(b.reviewerPubkey)
    || (Contains(nameA, "ashley") && Contains(nameB, "ashley"))
    || (Contains(nameA, "ward") && Contains(nameB, "ward"))
  }

  function JoinFiles(files: seq<string>): string {
    Join(files, ' ')
  }

  /** The wording of title and files that calls for a second supervisor. */
  predicate SensitiveText(cr: ChangeRequest) {
    var text := ToLower(cr.title + " " + JoinFiles(cr.touchedFiles));
    exists w | w in ["cashier", "escrow", "payout", "auth", "db", "infra"] :: Contains(text, w)
  }

  predicate HighRisk(cr: ChangeRequest) {
    cr.riskLevel == High || cr.needsSecondHuman || SensitiveText(cr) || NeedsDesign(cr.tags)
  }

  lemma WordInTitleOrFile(cr: ChangeRequest, word: string)
    requires word != "" && ' ' !in word
    ensures Contains(ToLower(cr.title + " " + JoinFiles(cr.touchedFiles)), word) <==>
              Contains(ToLower(cr.title), word) || exists f :: f in cr.touchedFiles && Contains(ToLower(f), word)
  {
    var title, files, lowered := ToLower(cr.title), JoinFiles(cr.touchedFiles), LowerAll(cr.touchedFiles);
    LowerConcat(cr.title + " ", files);
    LowerConcat(cr.title, " ");
    assert ToLower(" ") == " ";
    LowerJoin(cr.touchedFiles);
    ContainsAround(title, ' ', Join(lowered, ' '), word);
    ContainsJoin(lowered, ' ', word);
    hide ToLower, Contains, Join, LowerAll;
    if exists p :: p in lowered && Contains(p, word) {
      var p :| p in lowered && Contains(p, word);
      var i :| 0 <= i < |lowered| && lowered[i] == p;
      assert cr.touchedFiles[i] in cr.touchedFiles;
    }
    if exists f :: f in cr.touchedFiles && Contains(ToLower(f), word) {
      var f :| f in cr.touchedFiles && Contains(ToLower(f), word);
      var i :| 0 <= i < |cr.touchedFiles| && cr.touchedFiles[i] == f;
      assert lowered[i] in lowered;
    }
  }

  /** What calls for a second supervisor: the risk level, the flag, a tag that asks for a design, or
      one of six words, in any case, in the title or in the name of a touched file. */
  lemma HighRiskMeans(cr: ChangeRequest)
    ensures HighRisk(cr) <==>
              || cr.riskLevel == High || cr.needsSecondHuman || "needs-page" in cr.tags || "needs-logic" in cr.tags
              || exists word :: word in ["cashier", "escrow", "payout", "auth", "db", "infra"]
                   && (Contains(ToLower(cr.title), word)
                       || exists f :: f in cr.touchedFiles && Contains(ToLower(f), word))
  {
    forall word | word in ["cashier", "escrow", "payout", "auth", "db", "infra"]
      ensures Contains(ToLower(cr.title + " " + JoinFiles(cr.touchedFiles)), word) <==>
                Contains(ToLower(cr.title), word) || exists f :: f in cr.touchedFiles && Contains(ToLower(f), word)
    {
      WordInTitleOrFile(cr, word);
    }
    hide ToLower, Contains, JoinFiles;
  }

  /** Another task's change request has this very commit. */
  predicate CommitTaken(crs: Crs, cr: ChangeRequest) {
    cr.Sha() != "" && exists k ::
      k in crs && crs[k].id != cr.id && crs[k].taskId != cr.taskId && crs[k].Sha() == cr.Sha()
  }

  predicate ExitOk(cr: ChangeRequest) {
    cr.ExitCode() == None || cr.ExitCode() == Some(0)
  }

  /** `handleApproveCR` */
  function Approve(env: Env, crs: Crs, tasks: seq<Task>, r: ApproveRequest): (ApproveOutcome, Crs, seq<Task>) {
    if !KeyAllowed(env.supervisors, r.reviewerPubkey) then (UnknownSupervisor, crs, tasks)
    else if !r.isAdmin then (NotAdmin, crs, tasks)
    else if r.crId !in crs then (NotFound, crs, tasks)
    else if r.signature == "" then (MissingSignature, crs, tasks)
    else if !SignatureValid(env, r.crId, r.Given(), r.rationale) then (BadSignature, crs, tasks)
    else
      var cr := crs[r.crId];
      var approval := r.Given();
      if !ExitOk(cr) || CommitTaken(crs, cr) then
        (Blocked, crs[r.crId := cr.(status := FailedVerification)], tasks)
      else if HighRisk(cr) && cr.firstApproval.None? then
        (FirstOfTwo, crs[r.crId := cr.(status := PendingReview, firstApproval := Some(approval))], tasks)
      else if HighRisk(cr) && SamePerson(cr.firstApproval.value, approval) then
        (SameSupervisor, crs, tasks)
      else
        var signed := if HighRisk(cr) then cr.(secondApproval := Some(approval)) else cr;
        (ApprovedAndMerged, crs[r.crId := signed.(status := Approved)], WithStatus(tasks, cr.taskId, Merged))
  }

  // ---------------------------------------------------------------------------------------
  // Reject, request changes, QA reports
  // ---------------------------------------------------------------------------------------

  /** `handleRejectCR` */
  function Reject(crs: Crs, tasks: seq<Task>, crId: string, isAdmin: bool): (Crs, seq<Task>) {
    if !isAdmin || crId !in crs then (crs, tasks)
    else (crs[crId := crs[crId].(status := Rejected)], UpdateFirst(tasks, crs[crId].taskId, Reopened))
  }

  /** `handleRequestChangesCR` */
  function RequestChanges(crs: Crs, tasks: seq<Task>, crId: string, isAdmin: bool): (Crs, seq<Task>) {
    if !isAdmin || crId !in crs then (crs, tasks)
    else (crs[crId := crs[crId].(status := ChangesRequested)],
          WithStatus(tasks, crs[crId].taskId, TaskChangesRequested))
  }

  function BugTask(id: string): Task {
    Task(id, Open, None, None, [])
  }

  /** `handleQAReport`: a failure puts a bug task in front of the list. */
  function QaReport(crs: Crs, tasks: seq<Task>, crId: string, failed: bool, bugTaskId: string): (Crs, seq<Task>) {
    if crId !in crs then (crs, tasks)
    else
      var reports := crs[crId].qaReportsFailed + [failed];
      var cr := crs[crId].(qaReportsFailed := reports, qaStatus := if true in reports then QaFailed else QaPassed);
      if failed then (crs[crId := cr.(status := ChangesRequested)], [BugTask(bugTaskId)] + tasks)
      else (crs[crId := cr], tasks)
  }

  // ---------------------------------------------------------------------------------------
  // What every step keeps
  // ---------------------------------------------------------------------------------------

  /** A change request is stored under its own id. */
  ghost predicate KeysMatch(crs: Crs) {
    forall k :: k in crs ==> crs[k].id == k
  }

  predicate AreApprovedApart(a: ChangeRequest, b: ChangeRequest) {
    a.status == Approved && b.status == Approved && a.taskId != b.taskId
  }

  /** No two approved change requests of different tasks have the same commit. */
  ghost predicate ApprovedCommitsDiffer(crs: Crs) {
    forall a, b :: a in crs && b in crs && AreApprovedApart(crs[a], crs[b]) && crs[a].Sha() != "" ==>
      crs[a].Sha() != crs[b].Sha()
  }

  /** The signature on record verifies for this change request. */
  ghost predicate IsSigned(env: Env, crId: string, a: Approval) {
    exists rationale :: SignatureValid(env, crId, a, rationale)
  }

  ghost predicate IsGenuine(env: Env, crId: string, a: Approval) {
    KeyAllowed(env.supervisors, a.reviewerPubkey) && a.supervisorName == SupervisorName(a.reviewerPubkey)
      && IsSigned(env, crId, a)
  }

  /** Recorded approvals are by allowed keys with valid signatures for this change request, and a
      second one is never by what the handler takes for the same person. */
  ghost predicate ApprovalsAreGenuine(env: Env, cr: ChangeRequest) {
    && (cr.firstApproval.Some? ==> IsGenuine(env, cr.id, cr.firstApproval.value))
    && (cr.secondApproval.Some? ==>
          && IsGenuine(env, cr.id, cr.secondApproval.value)
          && cr.firstApproval.Some? && !SamePerson(cr.firstApproval.value, cr.secondApproval.value))
  }

  ghost predicate IsDualSigned(env: Env, cr: ChangeRequest) {
    ApprovalsAreGenuine(env, cr) && (cr.status == Approved && HighRisk(cr) ==> cr.secondApproval.Some?)
  }

  /** High-risk approvals carry two signatures. */
  ghost predicate DualSigned(env: Env, crs: Crs) {
    forall k :: k in crs ==> IsDualSigned(env, crs[k])
  }

  ghost predicate ReviewInvariant(env: Env, crs: Crs) {
    KeysMatch(crs) && ApprovedCommitsDiffer(crs) && DualSigned(env, crs)
  }

  datatype ReviewEvent =
    | SubmitEvent(cr: ChangeRequest)
    | SweepEvent
    | ApproveEvent(request: ApproveRequest)
    | RejectEvent(crId: string, isAdmin: bool)
    | RequestChangesEvent(crId: string, isAdmin: bool)
    | QaEvent(crId: string, failed: bool, bugTaskId: string)

  function Step(env: Env, crs: Crs, tasks: seq<Task>, e: ReviewEvent): (Crs, seq<Task>) {
    match e
    case SubmitEvent(cr) => (Submit(crs, tasks, cr).1, Submit(crs, tasks, cr).2)
    case SweepEvent => Sweep(crs, tasks)
    case ApproveEvent(r) => (Approve(env, crs, tasks, r).1, Approve(env, crs, tasks, r).2)
    case RejectEvent(crId, isAdmin) => Reject(crs, tasks, crId, isAdmin)
    case RequestChangesEvent(crId, isAdmin) => RequestChanges(crs, tasks, crId, isAdmin)
    case QaEvent(crId, failed, bugTaskId) => QaReport(crs, tasks, crId, failed, bugTaskId)
  }

  /** Agents submit change requests pending review and without approvals. */
  predicate ArrivesUnreviewed(e: ReviewEvent) {
    e.SubmitEvent? ==> e.cr.status == PendingReview && e.cr.firstApproval.None? && e.cr.secondApproval.None?
  }

  /** No other approved change request, of another task, has the commit of `cr`. */
  ghost predicate HasOwnCommit(crs: Crs, cr: ChangeRequest) {
    cr.Sha() != "" ==>
      forall j :: j in crs && j != cr.id && crs[j].status == Approved && crs[j].taskId != cr.taskId ==>
        crs[j].Sha() != cr.Sha()
  }

  lemma PutKeepsCommits(crs: Crs, k: string, cr: ChangeRequest)
    requires ApprovedCommitsDiffer(crs) && cr.id == k && (cr.status == Approved ==> HasOwnCommit(crs, cr))
    ensures ApprovedCommitsDiffer(crs[k := cr])
  {
    var crs' := crs[k := cr];
    forall a, b | a in crs' && b in crs' && AreApprovedApart(crs'[a], crs'[b]) && crs'[a].Sha() != ""
      ensures crs'[a].Sha() != crs'[b].Sha()
    {
      assert a == k ==> b != k;
      if a != k && b != k { assert AreApprovedApart(crs[a], crs[b]); }
    }
  }

  /** Putting in one change request, approved only with a commit of its own. */
  lemma Put(env: Env, crs: Crs, k: string, cr: ChangeRequest)
    requires ReviewInvariant(env, crs) && cr.id == k && IsDualSigned(env, cr)
    requires cr.status == Approved ==> HasOwnCommit(crs, cr)
    ensures ReviewInvariant(env, crs[k := cr])
  {
    hide IsDualSigned;
    PutKeepsCommits(crs, k, cr);
  }

  /** What an answer to an approval tells: the checks it passed, and the one change it made. */
  lemma ApproveCases(env: Env, crs: Crs, tasks: seq<Task>, r: ApproveRequest)
    ensures var (outcome, crs', _) := Approve(env, crs, tasks, r);
            if outcome !in {Blocked, FirstOfTwo, ApprovedAndMerged} then crs' == crs
            else
              && r.crId in crs && KeyAllowed(env.supervisors, r.reviewerPubkey)
              && SignatureValid(env, r.crId, r.Given(), r.rationale)
              && var cr := crs[r.crId];
                 match outcome
                 case Blocked => crs' == crs[r.crId := cr.(status := FailedVerification)]
                 case FirstOfTwo =>
                   && HighRisk(cr) && cr.firstApproval.None?
                   && crs' == crs[r.crId := cr.(status := PendingReview, firstApproval := Some(r.Given()))]
                 case _ =>
                   && ExitOk(cr) && !CommitTaken(crs, cr)
                   && if HighRisk(cr) then
                        && cr.firstApproval.Some? && !SamePerson(cr.firstApproval.value, r.Given())
                        && crs' == crs[r.crId := cr.(status := Approved, secondApproval := Some(r.Given()))]
                      else crs' == crs[r.crId := cr.(status := Approved)]
  {
    hide KeyAllowed, SignatureValid, HighRisk, CommitTaken, SamePerson, ExitOk, SupervisorName, UpdateFirst;
  }

  lemma HighRiskIgnoresReview(a: ChangeRequest, b: ChangeRequest)
    requires SameSubmission(a, b)
    ensures HighRisk(a) == HighRisk(b) && a.Sha() == b.Sha()
  {
  }

  /** Recording the approval of a request, as the first, the second, or not at all. */
  lemma ApprovalKeeps(env: Env, crs: Crs, r: ApproveRequest, cr: ChangeRequest)
    requires ReviewInvariant(env, crs) && r.crId in crs && SameSubmission(crs[r.crId], cr)
    requires KeyAllowed(env.supervisors, r.reviewerPubkey) && SignatureValid(env, r.crId, r.Given(), r.rationale)
    requires var before := crs[r.crId];
             || (cr.status != Approved && cr.firstApproval == Some(r.Given())
                 && cr.secondApproval == before.secondApproval == None)
             || (cr.status == Approved && !CommitTaken(crs, before) && cr.firstApproval == before.firstApproval
                 && if HighRisk(before) then
                      && before.firstApproval.Some? && !SamePerson(before.firstApproval.value, r.Given())
                      && cr.secondApproval == Some(r.Given())
                    else cr.secondApproval == before.secondApproval)
    ensures ReviewInvariant(env, crs[r.crId := cr])
  {
    var before := crs[r.crId];
    assert before.id == r.crId && IsDualSigned(env, before);
    HighRiskIgnoresReview(before, cr);
    assert IsGenuine(env, r.crId, r.Given()) by { hide KeyAllowed, SignatureValid, SupervisorName; }
    hide KeyAllowed, SignatureValid, HighRisk, SamePerson, IsGenuine, ReviewInvariant;
    assert cr.status == Approved ==> HasOwnCommit(crs, cr);
    hide CommitTaken, HasOwnCommit;
    Put(env, crs, r.crId, cr);
  }

  /** Replacing a change request by one that no review fact distinguishes from it, except that it
      may no longer be approved. */
  lemma PutAlike(env: Env, crs: Crs, k: string, cr: ChangeRequest)
    requires ReviewInvariant(env, crs) && k in crs
    requires cr.id == k && cr.taskId == crs[k].taskId && cr.Sha() == crs[k].Sha() && HighRisk(cr) == HighRisk(crs[k])
    requires cr.firstApproval == crs[k].firstApproval && cr.secondApproval == crs[k].secondApproval
    requires cr.status == crs[k].status || cr.status != Approved
    ensures ReviewInvariant(env, crs[k := cr])
  {
    assert IsDualSigned(env, cr) by {
      hide SamePerson, HighRisk, IsGenuine;
      assert IsDualSigned(env, crs[k]);
    }
    if cr.status == Approved {
      assert HasOwnCommit(crs, cr) by {
        hide HighRisk;
        assert forall j :: j in crs && crs[j].status == Approved && crs[j].taskId != cr.taskId ==>
                 AreApprovedApart(crs[k], crs[j]);
      }
    }
    hide HighRisk, IsDualSigned, HasOwnCommit, ReviewInvariant;
    Put(env, crs, k, cr);
  }

  lemma RestatusKeeps(env: Env, crs: Crs, crId: string, status: CrStatus)
    requires ReviewInvariant(env, crs) && crId in crs && status != Approved
    ensures ReviewInvariant(env, crs[crId := crs[crId].(status := status)])
  {
    var cr := crs[crId].(status := status);
    HighRiskIgnoresReview(crs[crId], cr);
    hide HighRisk;
    PutAlike(env, crs, crId, cr);
  }

  lemma ApproveKeeps(env: Env, crs: Crs, tasks: seq<Task>, r: ApproveRequest)
    requires ReviewInvariant(env, crs)
    ensures ReviewInvariant(env, Approve(env, crs, tasks, r).1)
  {
    var (outcome, crs', _) := Approve(env, crs, tasks, r);
    ApproveCases(env, crs, tasks, r);
    hide KeyAllowed, SignatureValid, HighRisk, CommitTaken, SamePerson, ExitOk, Approve;
    if outcome == Blocked {
      RestatusKeeps(env, crs, r.crId, FailedVerification);
    } else if outcome == FirstOfTwo || outcome == ApprovedAndMerged {
      ApprovalKeeps(env, crs, r, crs'[r.crId]);
    }
  }

  /** Marking some change requests as failed. */
  lemma SomeFailed(env: Env, crs: Crs, crs': Crs)
    requires ReviewInvariant(env, crs) && crs'.Keys == crs.Keys
    requires forall k :: k in crs ==> crs'[k] == crs[k] || crs'[k] == crs[k].(status := FailedVerification)
    ensures ReviewInvariant(env, crs')
  {
    hide SamePerson, HighRisk, IsGenuine;
    assert KeysMatch(crs');
    forall a, b | a in crs' && b in crs' && AreApprovedApart(crs'[a], crs'[b]) && crs'[a].Sha() != ""
      ensures crs'[a].Sha() != crs'[b].Sha()
    {
      assert crs'[a] == crs[a] && crs'[b] == crs[b];
    }
    forall k | k in crs' ensures IsDualSigned(env, crs'[k]) {
      assert IsDualSigned(env, crs[k]);
    }
  }

  lemma SweepKeeps(env: Env, crs: Crs, tasks: seq<Task>)
    requires ReviewInvariant(env, crs)
    ensures ReviewInvariant(env, Sweep(crs, tasks).0)
  {
    var crs' := Sweep(crs, tasks).0;
    forall k | k in crs ensures crs'[k] == crs[k] || crs'[k] == crs[k].(status := FailedVerification) {
      hide Fails;
    }
    SomeFailed(env, crs, crs');
  }

  lemma QaKeeps(env: Env, crs: Crs, tasks: seq<Task>, crId: string, failed: bool, bugTaskId: string)
    requires ReviewInvariant(env, crs)
    ensures ReviewInvariant(env, QaReport(crs, tasks, crId, failed, bugTaskId).0)
  {
    if crId in crs {
      var cr := QaReport(crs, tasks, crId, failed, bugTaskId).0[crId];
      assert QaReport(crs, tasks, crId, failed, bugTaskId).0 == crs[crId := cr];
      assert HighRisk(cr) == HighRisk(crs[crId]) && cr.Sha() == crs[crId].Sha();
      hide HighRisk, QaReport;
      PutAlike(env, crs, crId, cr);
    }
  }

  /** Who passes the barrier has its commit to itself. */
  lemma ValidHasOwnCommit(crs: Crs, cr: ChangeRequest)
    requires KeysMatch(crs) && Quality(cr, crs) == Valid
    ensures HasOwnCommit(crs, cr)
  {
    QualityMeans(cr, crs);
    hide Quality, BuildOk, QaOk, DiffOk, CompareSha, ChangeRequest.Sha;
  }

  /** What submitting stores. */
  lemma SubmittedIsUnreviewed(crs: Crs, tasks: seq<Task>, cr: ChangeRequest) returns (stored: ChangeRequest)
    requires cr.id != ""
    ensures Submit(crs, tasks, cr).1 == crs[cr.id := stored]
    ensures stored.id == cr.id && stored.taskId == cr.taskId && stored.Sha() == cr.Sha()
    ensures stored.status == if Quality(cr, crs) == Valid then cr.status else FailedVerification
    ensures Quality(cr, crs) == Valid ==> stored == Prepared(cr, tasks)
    ensures stored.firstApproval == cr.firstApproval && stored.secondApproval == cr.secondApproval
  {
    stored := if Quality(cr, crs) != Valid then cr.(status := FailedVerification) else Prepared(cr, tasks);
    hide Quality, Union, NeedsDesign, UpdateFirst;
  }

  /** A submission keeps the review invariant exactly if the approvals it brings along are genuine
      and, should it call itself approved, pass the barrier and be of high risk, are two. */
  lemma SubmitKeepsIff(env: Env, crs: Crs, tasks: seq<Task>, cr: ChangeRequest)
    requires ReviewInvariant(env, crs) && cr.id != ""
    ensures ReviewInvariant(env, Submit(crs, tasks, cr).1) <==>
              && ApprovalsAreGenuine(env, cr)
              && (cr.status == Approved && Quality(cr, crs) == Valid && HighRisk(Prepared(cr, tasks)) ==>
                    cr.secondApproval.Some?)
  {
    var stored := SubmittedIsUnreviewed(crs, tasks, cr);
    var crs' := Submit(crs, tasks, cr).1;
    if Quality(cr, crs) == Valid {
      ValidHasOwnCommit(crs, cr);
      hide Quality, Prepared, Submit;
      assert HasOwnCommit(crs, stored);
    }
    hide Quality, Prepared, Submit, HasOwnCommit, HighRisk, SamePerson, IsGenuine;
    assert ApprovalsAreGenuine(env, stored) <==> ApprovalsAreGenuine(env, cr);
    assert IsDualSigned(env, stored) <==>
             && ApprovalsAreGenuine(env, cr)
             && (cr.status == Approved && Quality(cr, crs) == Valid && HighRisk(Prepared(cr, tasks)) ==>
                   cr.secondApproval.Some?);
    if IsDualSigned(env, stored) {
      hide IsDualSigned;
      Put(env, crs, cr.id, stored);
    } else {
      hide IsDualSigned;
      assert crs'[cr.id] == stored;
    }
  }

  lemma SubmitKeeps(env: Env, crs: Crs, tasks: seq<Task>, cr: ChangeRequest)
    requires ReviewInvariant(env, crs)
    requires cr.status == PendingReview && cr.firstApproval.None? && cr.secondApproval.None?
    ensures ReviewInvariant(env, Submit(crs, tasks, cr).1)
  {
    hide Quality, HighRisk, SamePerson, IsGenuine, ReviewInvariant, Prepared;
    if cr.id != "" { SubmitKeepsIff(env, crs, tasks, cr); }
  }

  /** So a submission is taken at its word: one that calls itself approved, passes the barrier and
      is of high risk is approved without any signature. */
  lemma SelfApprovedIsApproved(env: Env, tasks: seq<Task>, cr: ChangeRequest)
    requires cr.id != "" && cr.status == Approved && cr.firstApproval.None? && cr.secondApproval.None?
    requires cr.riskLevel == High && Quality(cr, map[]) == Valid
    ensures ReviewInvariant(env, map[]) && !ReviewInvariant(env, Submit(map[], tasks, cr).1)
    ensures var stored := Submit(map[], tasks, cr).1[cr.id];
            stored.status == Approved && HighRisk(stored) && stored.firstApproval.None?
  {
    assert HighRisk(Prepared(cr, tasks));
    hide Quality, HighRisk, SamePerson, IsGenuine;
    assert ReviewInvariant(env, map[]);
    SubmitKeepsIff(env, map[], tasks, cr);
  }

  /** Every review step keeps the invariant, whatever came before it. */
  lemma StepKeepsReviewInvariant(env: Env, crs: Crs, tasks: seq<Task>, e: ReviewEvent)
    requires ReviewInvariant(env, crs) && ArrivesUnreviewed(e)
    ensures ReviewInvariant(env, Step(env, crs, tasks, e).0)
  {
    hide ReviewInvariant, Submit, Approve, Sweep, QaReport;
    match e
    case SubmitEvent(cr) => SubmitKeeps(env, crs, tasks, cr);
    case SweepEvent => SweepKeeps(env, crs, tasks);
    case ApproveEvent(r) => ApproveKeeps(env, crs, tasks, r);
    case RejectEvent(crId, isAdmin) =>
      if isAdmin && crId in crs { RestatusKeeps(env, crs, crId, Rejected); }
    case RequestChangesEvent(crId, isAdmin) =>
      if isAdmin && crId in crs { RestatusKeeps(env, crs, crId, ChangesRequested); }
    case QaEvent(crId, failed, bugTaskId) => QaKeeps(env, crs, tasks, crId, failed, bugTaskId);
  }

  /** An approval on record is an older one, or the one an approving request just gave. */
  ghost predicate ComesFrom(after: Option<Approval>, before: Option<Approval>, e: ReviewEvent, k: string) {
    after == before || (e.ApproveEvent? && e.request.crId == k && after == Some(e.request.Given()))
  }

  ghost predicate SameCommit(a: ChangeRequest, b: ChangeRequest) {
    a.id == b.id && a.taskId == b.taskId && a.Sha() == b.Sha()
  }

  /** Where a stored change request comes from: it was submitted just now, or it is an older one
      with its id, task and commit, and no approval but older ones and the one just given. */
  lemma StepOrigin(env: Env, crs: Crs, tasks: seq<Task>, e: ReviewEvent, k: string)
    requires k in Step(env, crs, tasks, e).0
    ensures var cr := Step(env, crs, tasks, e).0[k];
            || (&& e.SubmitEvent? && e.cr.id == k && SameCommit(cr, e.cr)
                && cr.firstApproval == e.cr.firstApproval && cr.secondApproval == e.cr.secondApproval)
            || (&& k in crs && SameCommit(cr, crs[k])
                && ComesFrom(cr.firstApproval, crs[k].firstApproval, e, k)
                && ComesFrom(cr.secondApproval, crs[k].secondApproval, e, k))
  {
    match e
    case SubmitEvent(cr) =>
      if cr.id != "" {
        var stored := SubmittedIsUnreviewed(crs, tasks, cr);
        hide Submit;
      }
    case ApproveEvent(r) =>
      ApproveCases(env, crs, tasks, r);
      hide Approve, KeyAllowed, SignatureValid, HighRisk, CommitTaken, SamePerson, ExitOk;
    case _ =>
      hide Fails, Abandoned, UpdateFirst;
  }

  /** No step forgets a change request. */
  lemma StepKeepsKeys(env: Env, crs: Crs, tasks: seq<Task>, e: ReviewEvent)
    ensures crs.Keys <= Step(env, crs, tasks, e).0.Keys
  {
    match e
    case SubmitEvent(cr) =>
      if cr.id != "" {
        var stored := SubmittedIsUnreviewed(crs, tasks, cr);
        hide Submit;
      }
    case ApproveEvent(r) =>
      ApproveCases(env, crs, tasks, r);
      hide Approve, KeyAllowed, SignatureValid, HighRisk, CommitTaken, SamePerson, ExitOk;
    case _ =>
      hide Fails, Abandoned, UpdateFirst;
  }

  ghost predicate HasMerged(tasks: seq<Task>, id: string) {
    exists j :: 0 <= j < |tasks| && tasks[j].id == id && tasks[j].status == Merged
  }

  lemma OtherStepsMergeNothing(env: Env, crs: Crs, tasks: seq<Task>, e: ReviewEvent, id: string)
    requires !HasMerged(tasks, id) && !e.ApproveEvent?
    ensures !HasMerged(Step(env, crs, tasks, e).1, id)
  {
    hide Quality, Fails, Abandoned, Prepared, Approve;
    assert forall i :: 0 <= i < |tasks| && tasks[i].id == id ==> tasks[i].status != Merged;
  }

  /** A task turns merged only in an approving step, for a change request of that task whose test
      exit code is zero or not recorded. */
  lemma MergedOnlyByApproval(env: Env, crs: Crs, tasks: seq<Task>, e: ReviewEvent, id: string)
    requires !HasMerged(tasks, id) && HasMerged(Step(env, crs, tasks, e).1, id)
    ensures e.ApproveEvent? && Approve(env, crs, tasks, e.request).0 == ApprovedAndMerged
    ensures e.request.crId in crs && crs[e.request.crId].taskId == id && ExitOk(crs[e.request.crId])
    ensures !CommitTaken(crs, crs[e.request.crId])
  {
    if !e.ApproveEvent? {
      OtherStepsMergeNothing(env, crs, tasks, e, id);
    }
    hide Quality, CommitTaken, HighRisk, SamePerson, KeyAllowed, ExitOk, SignatureValid, SupervisorName;
    assert e.ApproveEvent?;
    var tasks' := Approve(env, crs, tasks, e.request).2;
    var j :| 0 <= j < |tasks'| && tasks'[j].id == id && tasks'[j].status == Merged;
    assert forall i :: 0 <= i < |tasks| && tasks[i].id == id ==> tasks[i].status != Merged;
    hide Step, HasMerged;
  }
}
