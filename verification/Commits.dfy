/**
 When two commits count as the same. The quality barrier compares SHAs trimmed and in lower case,
 approving compares them as they are written: a commit written in capitals is a reused one for the
 barrier and a new one for the approval, which does not ask whether the barrier was passed.
 */
module Commits {
  import opened Prelude
  import opened Text
  import opened Tasks
  import opened CR = ChangeRequests

  /** Written the way the barrier compares it. */
  predicate IsPlain(sha: string) {
    ToLower(Trim(sha)) == sha
  }

  /** One commit for the barrier, two for the approval. */
  predicate DifferInSpelling(a: string, b: string) {
    a != b && CompareSha(a).Some? && CompareSha(a) == CompareSha(b)
  }

  /** Plain SHAs never differ in spelling alone. */
  lemma PlainShasDifferTruly(a: string, b: string)
    requires IsPlain(a) && IsPlain(b)
    ensures !DifferInSpelling(a, b)
  {
    hide ToLower, Trim;
  }

  /** No two approved change requests of different tasks have the same commit, as the barrier sees it. */
  ghost predicate ApprovedCommitsDifferTruly(crs: Crs) {
    forall a, b :: a in crs && b in crs && AreApprovedApart(crs[a], crs[b]) && crs[a].BarrierSha().Some? ==>
      crs[a].BarrierSha() != crs[b].BarrierSha()
  }

  /** An approved change request of another task has this commit in another spelling. */
  ghost predicate ApprovedUnderOtherSpelling(crs: Crs, cr: ChangeRequest) {
    exists k :: k in crs && crs[k].status == Approved && crs[k].taskId != cr.taskId
      && DifferInSpelling(crs[k].Sha(), cr.Sha())
  }

  lemma OwnCommitMeans(crs: Crs, cr: ChangeRequest)
    requires !CommitTaken(crs, cr)
    ensures forall j :: j in crs && crs[j].id != cr.id && crs[j].taskId != cr.taskId && cr.Sha() != "" ==>
             crs[j].Sha() != cr.Sha()
  {
  }

  lemma EmptyIsNoCommit()
    ensures CompareSha("").None?
  {
    assert TrimStart("") == "";
    assert TrimEnd("") == "";
  }

  lemma PutApprovedTrulyIff(crs: Crs, k: string, cr: ChangeRequest)
    requires KeysMatch(crs) && ApprovedCommitsDifferTruly(crs) && k in crs && SameCommit(crs[k], cr)
    requires cr.status == Approved
    requires forall j :: j in crs && crs[j].id != cr.id && crs[j].taskId != cr.taskId && cr.Sha() != "" ==>
             crs[j].Sha() != cr.Sha()
    ensures ApprovedCommitsDifferTruly(crs[k := cr]) <==> !ApprovedUnderOtherSpelling(crs, cr)
    ensures ApprovedUnderOtherSpelling(crs, cr) <==> ApprovedUnderOtherSpelling(crs, crs[k])
  {
    hide CompareSha, ChangeRequest.Sha;
    EmptyIsNoCommit();
    var crs' := crs[k := cr];
    if ApprovedUnderOtherSpelling(crs, cr) {
      var j :| j in crs && crs[j].status == Approved && crs[j].taskId != cr.taskId
        && DifferInSpelling(crs[j].Sha(), cr.Sha());
      assert AreApprovedApart(crs'[j], crs'[k]) && crs'[j].BarrierSha() == crs'[k].BarrierSha();
    } else {
      forall a, b | a in crs' && b in crs' && AreApprovedApart(crs'[a], crs'[b]) && crs'[a].BarrierSha().Some?
        ensures crs'[a].BarrierSha() != crs'[b].BarrierSha()
      {
        if a == k {
          assert !DifferInSpelling(crs[b].Sha(), cr.Sha());
        } else if b == k {
          assert !DifferInSpelling(crs[a].Sha(), cr.Sha());
        } else {
          assert AreApprovedApart(crs[a], crs[b]);
        }
      }
    }
  }

  /** A merging approval keeps approved commits truly different exactly if none of the approved ones
      is the same commit in another spelling. */
  lemma ApprovalKeepsTrulyDifferentIff(env: Env, crs: Crs, tasks: seq<Task>, r: ApproveRequest)
    requires KeysMatch(crs) && ApprovedCommitsDifferTruly(crs)
    requires Approve(env, crs, tasks, r).0 == ApprovedAndMerged
    ensures r.crId in crs
    ensures ApprovedCommitsDifferTruly(Approve(env, crs, tasks, r).1) <==> !ApprovedUnderOtherSpelling(crs, crs[r.crId])
  {
    ApproveCases(env, crs, tasks, r);
    var cr, crs' := crs[r.crId], Approve(env, crs, tasks, r).1;
    HighRiskIgnoresReview(cr, crs'[r.crId]);
    OwnCommitMeans(crs, cr);
    hide Approve, KeyAllowed, SignatureValid, HighRisk, CommitTaken, SamePerson, ExitOk;
    PutApprovedTrulyIff(crs, r.crId, crs'[r.crId]);
  }

  lemma SpellingsOfAb()
    ensures CompareSha("ab") == CompareSha("AB") == Some("ab")
  {
    assert TrimStart("ab") == "ab" && TrimEnd("ab") == "ab";
    assert TrimStart("AB") == "AB" && TrimEnd("AB") == "AB";
    assert "ab"[1..] == "b" && "b"[1..] == "" && "AB"[1..] == "B" && "B"[1..] == "";
    assert ToLower("b") == "b" && ToLower("B") == "b";
    assert ToLower("ab") == "ab" && ToLower("AB") == "ab";
  }

  /** So the barrier is circumvented: with "ab" approved for one task, the change request of another
      task with commit "AB", already marked as failed by the barrier, is approved and merged. */
  lemma CapitalsAreMerged(env: Env, crs: Crs, tasks: seq<Task>, r: ApproveRequest, other: string)
    requires crs.Keys == {r.crId, other} && r.crId != other && KeysMatch(crs)
    requires crs[other].status == Approved && crs[other].Sha() == "ab"
    requires var cr := crs[r.crId];
             cr.status == FailedVerification && cr.Sha() == "AB" && cr.taskId != crs[other].taskId && ExitOk(cr)
               && !HighRisk(cr)
    requires KeyAllowed(env.supervisors, r.reviewerPubkey) && r.isAdmin && r.signature != ""
    requires SignatureValid(env, r.crId, r.Given(), r.rationale)
    ensures var (outcome, crs', _) := Approve(env, crs, tasks, r);
            && outcome == ApprovedAndMerged && crs'.Keys == crs.Keys
            && AreApprovedApart(crs'[other], crs'[r.crId])
            && crs'[other].BarrierSha() == crs'[r.crId].BarrierSha() == Some("ab")
  {
    SpellingsOfAb();
    assert !CommitTaken(crs, crs[r.crId]);
    hide KeyAllowed, SignatureValid, HighRisk, CommitTaken, SamePerson, ExitOk, SupervisorName, UpdateFirst, CompareSha;
  }

  // ---------------------------------------------------------------------------------------
  // Where every commit is plain
  // ---------------------------------------------------------------------------------------

  ghost predicate ShasArePlain(crs: Crs) {
    forall k :: k in crs ==> IsPlain(crs[k].Sha())
  }

  predicate SubmitsPlain(e: ReviewEvent) {
    e.SubmitEvent? ==> IsPlain(e.cr.Sha())
  }

  lemma StepKeepsPlain(env: Env, crs: Crs, tasks: seq<Task>, e: ReviewEvent)
    requires ShasArePlain(crs) && SubmitsPlain(e)
    ensures ShasArePlain(Step(env, crs, tasks, e).0)
  {
    var crs' := Step(env, crs, tasks, e).0;
    forall k | k in crs' ensures IsPlain(crs'[k].Sha()) {
      StepOrigin(env, crs, tasks, e, k);
      hide Step, IsPlain;
    }
  }

  /** With plain commits the comparison of the approval is that of the barrier. */
  lemma PlainCommitsDifferTruly(crs: Crs)
    requires ApprovedCommitsDiffer(crs) && ShasArePlain(crs)
    ensures ApprovedCommitsDifferTruly(crs)
  {
    hide IsPlain, CompareSha, ChangeRequest.Sha;
    EmptyIsNoCommit();
    forall a, b | a in crs && b in crs && AreApprovedApart(crs[a], crs[b]) && crs[a].BarrierSha().Some?
      ensures crs[a].BarrierSha() != crs[b].BarrierSha()
    {
      PlainShasDifferTruly(crs[a].Sha(), crs[b].Sha());
    }
  }
}
