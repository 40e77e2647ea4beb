/**
 What the review handlers answer and what they do to the change request and its task, stated on the
 fields of requests, change requests and tasks alone.
 */
module ReviewEffects {
  import opened Prelude
  import opened Text
  import opened Tasks
  import opened CR = ChangeRequests
  import Envelopes
  import Hex
  import Ops = Operations

  /** `IsFirst`, spelled out: the task at `i` is the one `find` gives for its id. */
  lemma FirstMeans(tasks: seq<Task>, i: nat)
    requires i < |tasks|
    ensures IsFirst(tasks, i) <==> forall j :: 0 <= j < i ==> tasks[j].id != tasks[i].id
  {
    var found := Find(tasks, tasks[i].id);
    if found.Some? && found.value != i { assert tasks[found.value].id == tasks[i].id; }
  }

  // ---------------------------------------------------------------------------------------
  // Approving
  // ---------------------------------------------------------------------------------------

  /** The grounds on which an approval is turned away, in their order: a key that, trimmed and in
      lower case, is not an allowed one; no admin; no such change request; no signature; a key that
      is not 32 or a signature that is not 64 bytes, or one that does not verify over the envelope
      of this change request, time and rationale. */
  lemma ApproveRefusals(env: Env, crs: Crs, tasks: seq<Task>, r: ApproveRequest)
    ensures var (outcome, crs', tasks') := Approve(env, crs, tasks, r);
            var known := r.reviewerPubkey != "" && ToLower(Trim(r.reviewerPubkey)) in env.supervisors;
            var found := known && r.isAdmin && r.crId in crs;
            var key, signature := Hex.HexToBytes(r.reviewerPubkey), Hex.HexToBytes(r.signature);
            var message := Envelopes.ApproveEnvelope(r.timestamp, env.utf8(r.crId), env.utf8(r.rationale));
            var verifies := |key| == 32 && |signature| == 64 && env.verify(key, message, signature);
            && (outcome == UnknownSupervisor <==> !known)
            && (outcome == NotAdmin <==> known && !r.isAdmin)
            && (outcome == NotFound <==> known && r.isAdmin && r.crId !in crs)
            && (outcome == MissingSignature <==> found && r.signature == "")
            && (outcome == BadSignature <==> found && r.signature != "" && !verifies)
            && (!(found && r.signature != "" && verifies) ==> crs' == crs && tasks' == tasks)
  {
    hide ToLower, Trim, Hex.HexToBytes, Envelopes.ApproveEnvelope;
    hide SupervisorName, HighRisk, SamePerson, ExitOk, CommitTaken, WithStatus;
  }

  predicate FailedTests(cr: ChangeRequest) {
    && cr.testReport.Some?
    && var report := cr.testReport.value;
       || (report.testExitCode.Some? && report.testExitCode.value != 0)
       || (report.testExitCode.None? && report.exitCode.Some? && report.exitCode.value != 0)
  }

  /** Another change request, of another task, with the same SHA, or commit id where that is missing. */
  predicate HasSameSha(cr: ChangeRequest, other: ChangeRequest) {
    var sha := if cr.commitSha != "" then cr.commitSha else cr.commitId;
    var otherSha := if other.commitSha != "" then other.commitSha else other.commitId;
    sha != "" && other.id != cr.id && other.taskId != cr.taskId && otherSha == sha
  }

  lemma TakenMeans(crs: Crs, cr: ChangeRequest)
    ensures CommitTaken(crs, cr) <==> exists k :: k in crs && HasSameSha(cr, crs[k])
  {
    if CommitTaken(crs, cr) {
      var k :| k in crs && crs[k].id != cr.id && crs[k].taskId != cr.taskId && crs[k].Sha() == cr.Sha();
      assert HasSameSha(cr, crs[k]);
    }
    if exists k :: k in crs && HasSameSha(cr, crs[k]) {
      var k :| k in crs && HasSameSha(cr, crs[k]);
      assert crs[k].Sha() == cr.Sha();
    }
  }

  /** A request that is not turned away is blocked exactly if the tests failed, by the test exit code
      or else the exit code, or another task's change request has this very SHA. */
  lemma ApproveBlocksIff(env: Env, crs: Crs, tasks: seq<Task>, r: ApproveRequest)
    requires Approve(env, crs, tasks, r).0 !in {UnknownSupervisor, NotAdmin, NotFound, MissingSignature, BadSignature}
    ensures r.crId in crs
    ensures var (outcome, crs', tasks') := Approve(env, crs, tasks, r);
            outcome == Blocked <==> FailedTests(crs[r.crId]) || exists k :: k in crs && HasSameSha(crs[r.crId], crs[k])
    ensures var (outcome, crs', tasks') := Approve(env, crs, tasks, r);
            outcome == Blocked ==> tasks' == tasks && crs' == crs[r.crId := crs[r.crId].(status := FailedVerification)]
  {
    hide KeyAllowed, SignatureValid, SupervisorName, HighRisk, SamePerson, WithStatus;
    var cr := crs[r.crId];
    assert ExitOk(cr) <==> !FailedTests(cr);
    assert CommitTaken(crs, cr) <==> exists k :: k in crs && HasSameSha(cr, crs[k]) by { TakenMeans(crs, cr); }
    hide ExitOk, CommitTaken, FailedTests, HasSameSha;
  }

  /** Who merges has passed its tests: a recorded exit code is zero. */
  lemma MergedPassedTests(env: Env, crs: Crs, tasks: seq<Task>, r: ApproveRequest)
    requires Approve(env, crs, tasks, r).0 == ApprovedAndMerged && crs[r.crId].testReport.Some?
    ensures var report := crs[r.crId].testReport.value;
            && (report.testExitCode.Some? ==> report.testExitCode.value == 0)
            && (report.testExitCode.None? && report.exitCode.Some? ==> report.exitCode.value == 0)
  {
    ApproveBlocksIff(env, crs, tasks, r);
    hide Approve;
  }

  /** A merging approval approves the change request and marks the first task of its id as merged;
      every other change request and task, and the rest of that task, stay as they are. */
  lemma ApproveMerges(env: Env, crs: Crs, tasks: seq<Task>, r: ApproveRequest)
    requires Approve(env, crs, tasks, r).0 == ApprovedAndMerged
    ensures var (_, crs', tasks') := Approve(env, crs, tasks, r);
            && crs'.Keys == crs.Keys && crs'[r.crId].status == Approved
            && (forall k :: k in crs && k != r.crId ==> crs'[k] == crs[k])
            && |tasks'| == |tasks|
            && forall i :: 0 <= i < |tasks| ==>
                 tasks'[i] == if tasks[i].id == crs[r.crId].taskId
                                 && (forall j :: 0 <= j < i ==> tasks[j].id != tasks[i].id)
                              then tasks[i].(status := Merged) else tasks[i]
  {
    ApproveCases(env, crs, tasks, r);
    forall i | 0 <= i < |tasks|
      ensures IsFirst(tasks, i) <==> forall j :: 0 <= j < i ==> tasks[j].id != tasks[i].id
    {
      FirstMeans(tasks, i);
    }
    hide KeyAllowed, SignatureValid, SupervisorName, HighRisk, SamePerson, ExitOk, CommitTaken, IsFirst;
  }

  /** A request that is neither turned away nor blocked: at high risk the first approval is put on
      record and waited with, a second one taken for the same person's changes nothing, and another one
      is put on record and merges. Otherwise it merges, and no approval is put on record. */
  lemma ApproveRecords(env: Env, crs: Crs, tasks: seq<Task>, r: ApproveRequest)
    requires Approve(env, crs, tasks, r).0 in {FirstOfTwo, SameSupervisor, ApprovedAndMerged}
    ensures r.crId in crs && r.crId in Approve(env, crs, tasks, r).1
    ensures var (outcome, crs', tasks') := Approve(env, crs, tasks, r);
            var cr, cr' := crs[r.crId], crs'[r.crId];
            var given := Approval(r.reviewerPubkey, SupervisorName(r.reviewerPubkey), r.signature, r.timestamp);
            && crs' == crs[r.crId := cr']
            && (outcome == FirstOfTwo <==> HighRisk(cr) && cr.firstApproval.None?)
            && (outcome == FirstOfTwo ==>
                  cr' == cr.(status := PendingReview, firstApproval := Some(given)) && tasks' == tasks)
            && (outcome == SameSupervisor <==>
                  HighRisk(cr) && cr.firstApproval.Some? && SamePerson(cr.firstApproval.value, given))
            && (outcome == SameSupervisor ==> cr' == cr && tasks' == tasks)
            && (outcome == ApprovedAndMerged ==>
                  cr' == if HighRisk(cr) then cr.(status := Approved, secondApproval := Some(given))
                         else cr.(status := Approved))
  {
    hide KeyAllowed, SignatureValid, HighRisk, CommitTaken, SamePerson, ExitOk, SupervisorName, WithStatus;
  }

  /** Where nothing calls for a second supervisor, one valid request for a change request in order
      merges it, without a second approval. */
  lemma OneRequestMerges(env: Env, crs: Crs, tasks: seq<Task>, r: ApproveRequest)
    requires r.crId in crs && r.isAdmin && r.signature != ""
    requires r.reviewerPubkey != "" && ToLower(Trim(r.reviewerPubkey)) in env.supervisors
    requires |Hex.HexToBytes(r.reviewerPubkey)| == 32 && |Hex.HexToBytes(r.signature)| == 64
    requires env.verify(Hex.HexToBytes(r.reviewerPubkey),
                        Envelopes.ApproveEnvelope(r.timestamp, env.utf8(r.crId), env.utf8(r.rationale)),
                        Hex.HexToBytes(r.signature))
    requires !FailedTests(crs[r.crId]) && forall k :: k in crs ==> !HasSameSha(crs[r.crId], crs[k])
    requires crs[r.crId].riskLevel != High && !crs[r.crId].needsSecondHuman
    requires "needs-page" !in crs[r.crId].tags && "needs-logic" !in crs[r.crId].tags
    requires forall word :: word in ["cashier", "escrow", "payout", "auth", "db", "infra"] ==>
               !Contains(ToLower(crs[r.crId].title), word)
               && forall f :: f in crs[r.crId].touchedFiles ==> !Contains(ToLower(f), word)
    ensures Approve(env, crs, tasks, r).0 == ApprovedAndMerged
    ensures Approve(env, crs, tasks, r).1[r.crId] == crs[r.crId].(status := Approved)
  {
    ApproveRefusals(env, crs, tasks, r);
    HighRiskMeans(crs[r.crId]);
    hide KeyAllowed, SignatureValid, SupervisorName, HighRisk, SamePerson;
    hide ExitOk, CommitTaken, WithStatus, FailedTests, HasSameSha;
    hide ToLower, Trim, Contains, Hex.HexToBytes, Envelopes.ApproveEnvelope;
    ApproveBlocksIff(env, crs, tasks, r);
  }

  // ---------------------------------------------------------------------------------------
  // Submitting
  // ---------------------------------------------------------------------------------------

  /** The first task of that id has the tag. */
  predicate TaskHasTag(tasks: seq<Task>, taskId: string, tag: string) {
    exists i :: 0 <= i < |tasks| && tasks[i].id == taskId && tag in tasks[i].tags
                && forall j :: 0 <= j < i ==> tasks[j].id != taskId
  }

  lemma PreparedTags(tasks: seq<Task>, cr: ChangeRequest)
    ensures var stored := Prepared(cr, tasks);
            && (forall tag :: tag in stored.tags <==> tag in cr.tags || TaskHasTag(tasks, cr.taskId, tag))
            && stored == cr.(tags := stored.tags, riskLevel := stored.riskLevel)
            && stored.riskLevel ==
                 if "needs-page" in stored.tags || "needs-logic" in stored.tags then High else cr.riskLevel
  {
    hide Union;
    var i := Find(tasks, cr.taskId);
    if i.Some? {
      forall tag ensures TaskHasTag(tasks, cr.taskId, tag) <==> tag in tasks[i.value].tags {
      }
    }
  }

  /** A submission that fails the barrier is stored as failed and touches no task. One that passes is
      stored with the tags of its task, at high risk if these ask for a design, and the first task
      of that id is in review for it. */
  lemma SubmitEffects(crs: Crs, tasks: seq<Task>, cr: ChangeRequest)
    requires cr.id != ""
    ensures var (outcome, crs', tasks') := Submit(crs, tasks, cr);
            && crs'.Keys == crs.Keys + {cr.id} && |tasks'| == |tasks|
            && (forall k :: k in crs && k != cr.id ==> crs'[k] == crs[k])
            && (Quality(cr, crs) != Valid ==>
                  outcome == Refused(Quality(cr, crs)) && crs'[cr.id] == cr.(status := FailedVerification)
                    && tasks' == tasks)
            && (Quality(cr, crs) == Valid ==>
                  && outcome == Submitted
                  && (forall tag :: tag in crs'[cr.id].tags <==> tag in cr.tags || TaskHasTag(tasks, cr.taskId, tag))
                  && crs'[cr.id] == cr.(tags := crs'[cr.id].tags, riskLevel := crs'[cr.id].riskLevel)
                  && crs'[cr.id].riskLevel ==
                       (if "needs-page" in crs'[cr.id].tags || "needs-logic" in crs'[cr.id].tags
                        then High else cr.riskLevel)
                  && forall i :: 0 <= i < |tasks| ==>
                       tasks'[i] == if tasks[i].id == cr.taskId
                                       && (forall j :: 0 <= j < i ==> tasks[j].id != tasks[i].id)
                                    then tasks[i].(status := InReview, changeRequestId := Some(cr.id)) else tasks[i])
  {
    hide Quality;
    forall i | 0 <= i < |tasks|
      ensures IsFirst(tasks, i) <==> forall j :: 0 <= j < i ==> tasks[j].id != tasks[i].id
    {
      FirstMeans(tasks, i);
    }
    PreparedTags(tasks, cr);
    hide IsFirst, Prepared, TaskHasTag;
  }

  // ---------------------------------------------------------------------------------------
  // Rejecting, requesting changes, QA reports
  // ---------------------------------------------------------------------------------------

  /** A rejection by an admin marks the change request as rejected and opens the first task of its id,
      without its claim; the task keeps its change request. */
  lemma RejectEffects(crs: Crs, tasks: seq<Task>, crId: string, isAdmin: bool)
    ensures var (crs', tasks') := Reject(crs, tasks, crId, isAdmin);
            if !isAdmin || crId !in crs then crs' == crs && tasks' == tasks
            else
              && crs' == crs[crId := crs[crId].(status := Rejected)] && |tasks'| == |tasks|
              && forall i :: 0 <= i < |tasks| ==>
                   tasks'[i] == if tasks[i].id == crs[crId].taskId
                                   && (forall j :: 0 <= j < i ==> tasks[j].id != tasks[i].id)
                                then tasks[i].(status := Open, claimedBy := None) else tasks[i]
  {
    forall i | 0 <= i < |tasks|
      ensures IsFirst(tasks, i) <==> forall j :: 0 <= j < i ==> tasks[j].id != tasks[i].id
    {
      FirstMeans(tasks, i);
    }
    hide IsFirst;
  }

  lemma RequestChangesEffects(crs: Crs, tasks: seq<Task>, crId: string, isAdmin: bool)
    ensures var (crs', tasks') := RequestChanges(crs, tasks, crId, isAdmin);
            if !isAdmin || crId !in crs then crs' == crs && tasks' == tasks
            else
              && crs' == crs[crId := crs[crId].(status := ChangesRequested)] && |tasks'| == |tasks|
              && forall i :: 0 <= i < |tasks| ==>
                   tasks'[i] == if tasks[i].id == crs[crId].taskId
                                   && (forall j :: 0 <= j < i ==> tasks[j].id != tasks[i].id)
                                then tasks[i].(status := TaskChangesRequested) else tasks[i]
  {
    forall i | 0 <= i < |tasks|
      ensures IsFirst(tasks, i) <==> forall j :: 0 <= j < i ==> tasks[j].id != tasks[i].id
    {
      FirstMeans(tasks, i);
    }
    hide IsFirst;
  }

  /** After a QA report of failure the change request never passes the barrier again, whatever later
      reports say, and an open bug task is in front of the list. A report of success alone leaves
      status and tasks as they are. */
  lemma QaEffects(crs: Crs, tasks: seq<Task>, crId: string, failed: bool, bugTaskId: string, all: Crs)
    requires crId in crs
    ensures var (crs', tasks') := QaReport(crs, tasks, crId, failed, bugTaskId);
            && crs'.Keys == crs.Keys && (forall k :: k in crs && k != crId ==> crs'[k] == crs[k])
            && crs'[crId].qaReportsFailed == crs[crId].qaReportsFailed + [failed]
            && (crs'[crId].qaStatus == QaFailed <==> failed || true in crs[crId].qaReportsFailed)
            && (failed || true in crs[crId].qaReportsFailed ==> Quality(crs'[crId], all) != Valid)
            && crs'[crId].status == (if failed then ChangesRequested else crs[crId].status)
            && (failed ==> |tasks'| == |tasks| + 1 && tasks'[1..] == tasks
                           && tasks'[0].id == bugTaskId && tasks'[0].status == Open && tasks'[0].changeRequestId.None?)
            && (!failed ==> tasks' == tasks)
  {
    hide BuildOk, DiffOk, Clashes;
  }

  // ---------------------------------------------------------------------------------------
  // Sweeping
  // ---------------------------------------------------------------------------------------

  predicate LosesReview(crs: Crs, tasks: seq<Task>, i: nat)
    requires i < |tasks|
  {
    && tasks[i].status == InReview && (forall j :: 0 <= j < i ==> tasks[j].id != tasks[i].id)
    && tasks[i].changeRequestId.Some? && tasks[i].changeRequestId.value in crs
    && var cr := crs[tasks[i].changeRequestId.value];
       cr.taskId == tasks[i].id && cr.status in {PendingReview, ChangesRequested} && Quality(cr, crs) != Valid
  }

  /** The sweep marks what is pending or sent back for changes and fails the barrier, and nothing
      else. A task it lets go was in review for such a change request of its own; it is open again,
      without claim and without change request. */
  lemma SweepEffects(crs: Crs, tasks: seq<Task>)
    ensures var (crs', tasks') := Sweep(crs, tasks);
            && crs'.Keys == crs.Keys && |tasks'| == |tasks|
            && (forall k :: k in crs ==>
                  crs'[k] == if crs[k].status in {PendingReview, ChangesRequested} && Quality(crs[k], crs) != Valid
                             then crs[k].(status := FailedVerification) else crs[k])
            && forall i :: 0 <= i < |tasks| ==>
                 tasks'[i] == if LosesReview(crs, tasks, i)
                              then tasks[i].(status := Open, changeRequestId := None, claimedBy := None) else tasks[i]
  {
    hide Quality;
    forall i | 0 <= i < |tasks|
      ensures Abandoned(crs, tasks, i) <==> LosesReview(crs, tasks, i)
    {
      FirstMeans(tasks, i);
    }
    hide LosesReview, Abandoned;
  }

  /** A task the sweep let go can be claimed anew: a claim of it under a fresh key goes through, unless
      claiming is paused or an operation of the task is still live. */
  lemma LetGoCanBeClaimed(crs: Crs, tasks: seq<Task>, i: nat, x: Ops.Indexes, r: Ops.ClaimRequest)
    requires i < |tasks| && LosesReview(crs, tasks, i) && Ops.Agree(x)
    requires r.agentId != "" && r.agentPubkey != "" && r.taskId == Some(tasks[i].id) && !r.paused
    requires Ops.ClaimKey(r) !in x.byKey && !Ops.IsLive(x, tasks[i].id, r.now)
    ensures var (outcome, _, tasks') := Ops.Claim(x, Sweep(crs, tasks).1, r);
            outcome.NewOperation? && tasks'[i].status == Claimed && tasks'[i].claimedBy == Some(r.agentId)
  {
    var swept := Sweep(crs, tasks).1;
    SweepEffects(crs, tasks);
    FirstMeans(swept, i);
    assert Find(swept, tasks[i].id) == Some(i);
    hide Sweep, LosesReview, Ops.ClaimKey;
    Ops.ClaimExactly(x, swept, r);
  }
}
