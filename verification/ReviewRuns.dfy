/**
 What whole runs guarantee about supervisors and commits once callers keep to plain spellings: keys
 without blanks around them, SHAs trimmed and in lower case.
 */
module ReviewRuns {
  import opened Prelude
  import opened Text
  import opened Coordinator
  import opened Supervisors
  import opened Commits
  import CR = ChangeRequests

  // ---------------------------------------------------------------------------------------
  // Keys
  // ---------------------------------------------------------------------------------------

  /** Approval requests give their key without blanks around it. */
  predicate GivesTrimmedKey(e: Event) {
    e.Review? && e.review.ApproveEvent? ==> Trim(e.review.request.reviewerPubkey) == e.review.request.reviewerPubkey
  }

  predicate HasTrimmedKey(a: Option<CR.Approval>) {
    a.Some? ==> Trim(a.value.reviewerPubkey) == a.value.reviewerPubkey
  }

  ghost predicate KeysAreTrimmed(crs: CR.Crs) {
    forall k :: k in crs ==> HasTrimmedKey(crs[k].firstApproval) && HasTrimmedKey(crs[k].secondApproval)
  }

  lemma StepKeepsTrimmed(env: CR.Env, w: World, e: Event)
    requires KeysAreTrimmed(w.store.crs) && Orderly(w.store, e) && GivesTrimmedKey(e)
    ensures KeysAreTrimmed(Next(env, w, e).store.crs)
  {
    if e.Review? {
      var crs' := Next(env, w, e).store.crs;
      forall k | k in crs' ensures HasTrimmedKey(crs'[k].firstApproval) && HasTrimmedKey(crs'[k].secondApproval) {
        CR.StepOrigin(env, w.store.crs, w.store.tasks, e.review, k);
        hide CR.Step, Trim, CR.SameCommit;
      }
    }
  }

  lemma {:induction false} RunKeepsTrimmed(env: CR.Env, w: World, events: seq<Event>)
    requires KeysAreTrimmed(w.store.crs) && OrderlyRun(env, w, events)
    requires forall e :: e in events ==> GivesTrimmedKey(e)
    ensures KeysAreTrimmed(Run(env, w, events).store.crs)
    decreases |events|
  {
    if events == [] {
    } else {
      StepKeepsTrimmed(env, w, events[0]);
      hide Next, KeysAreTrimmed, GivesTrimmedKey;
      RunKeepsTrimmed(env, Next(env, w, events[0]), events[1..]);
    }
  }

  lemma DualApprovalsHaveTwoKeys(env: CR.Env, events: seq<Event>, k: string)
    requires WellConfigured(env) && OrderlyRun(env, START, events)
    requires forall e :: e in events ==> GivesTrimmedKey(e)
    requires k in Run(env, START, events).store.crs && Run(env, START, events).store.crs[k].status == CR.Approved
    requires CR.HighRisk(Run(env, START, events).store.crs[k])
    ensures var cr := Run(env, START, events).store.crs[k];
            && cr.firstApproval.Some? && cr.secondApproval.Some?
            && HaveTwoKeys(env, cr.firstApproval.value.reviewerPubkey, cr.secondApproval.value.reviewerPubkey)
            && CR.IsSigned(env, k, cr.firstApproval.value) && CR.IsSigned(env, k, cr.secondApproval.value)
  {
    var crs := Run(env, START, events).store.crs;
    ApprovedHighRiskIsDual(env, events, k);
    RunKeepsTrimmed(env, START, events);
    hide Run, OrderlyRun, CR.HighRisk, CR.SamePerson, CR.IsSigned;
    hide CR.IsGenuine, WellConfigured, HaveTwoKeys, Trim, GivesTrimmedKey;
    assert HasTrimmedKey(crs[k].firstApproval) && HasTrimmedKey(crs[k].secondApproval);
    hide KeysAreTrimmed;
    TrimmedApprovalsHaveTwoKeys(env, k, crs[k].firstApproval.value, crs[k].secondApproval.value);
  }

  /** With 64-digit supervisor keys and every approval request giving its key without blanks: in every
      reachable state an approved high-risk change request carries approvals under two different
      allowed keys, different also as bytes, both with a signature valid for this change request. */
  lemma HighRiskNeedsTwoKeys(env: CR.Env, events: seq<Event>, k: string)
    requires WellConfigured(env) && OrderlyRun(env, START, events)
    requires forall e :: e in events ==> GivesTrimmedKey(e)
    requires k in Run(env, START, events).store.crs && Run(env, START, events).store.crs[k].status == CR.Approved
    requires var cr := Run(env, START, events).store.crs[k];
             || cr.riskLevel == CR.High || cr.needsSecondHuman || "needs-page" in cr.tags || "needs-logic" in cr.tags
             || exists word :: word in ["cashier", "escrow", "payout", "auth", "db", "infra"]
                  && (Contains(ToLower(cr.title), word)
                      || exists f :: f in cr.touchedFiles && Contains(ToLower(f), word))
    ensures var cr := Run(env, START, events).store.crs[k];
            && cr.firstApproval.Some? && cr.secondApproval.Some?
            && HaveTwoKeys(env, cr.firstApproval.value.reviewerPubkey, cr.secondApproval.value.reviewerPubkey)
            && CR.IsSigned(env, k, cr.firstApproval.value) && CR.IsSigned(env, k, cr.secondApproval.value)
  {
    CR.HighRiskMeans(Run(env, START, events).store.crs[k]);
    hide Run, OrderlyRun, CR.HighRisk, CR.IsSigned, WellConfigured, HaveTwoKeys, GivesTrimmedKey, Contains, ToLower;
    DualApprovalsHaveTwoKeys(env, events, k);
  }

  /** Without that care: two approvals on record under one and the same key are under a key of
      neither Ashley nor Ward, written twice with different blanks around it. */
  lemma RepeatedKeyIsUnnamed(env: CR.Env, events: seq<Event>, k: string)
    requires WellConfigured(env) && OrderlyRun(env, START, events)
    requires k in Run(env, START, events).store.crs && Run(env, START, events).store.crs[k].status == CR.Approved
    requires CR.HighRisk(Run(env, START, events).store.crs[k])
    ensures var cr := Run(env, START, events).store.crs[k];
            && cr.firstApproval.Some? && cr.secondApproval.Some?
            && var first, second := cr.firstApproval.value.reviewerPubkey, cr.secondApproval.value.reviewerPubkey;
               NormalKey(first) == NormalKey(second) ==>
                 ToLower(first) != ToLower(second) && !IsAshley(NormalKey(first)) && !IsWard(NormalKey(first))
  {
    var crs := Run(env, START, events).store.crs;
    ApprovedHighRiskIsDual(env, events, k);
    hide Run, OrderlyRun, CR.HighRisk, CR.SamePerson, CR.IsSigned, WellConfigured, Trim, ToLower;
    var first, second := crs[k].firstApproval.value, crs[k].secondApproval.value;
    GenuineIsWellFormed(env, k, first);
    GenuineIsWellFormed(env, k, second);
    if NormalKey(first.reviewerPubkey) == NormalKey(second.reviewerPubkey) { RepeatIsMissedIff(first, second); }
  }

  // ---------------------------------------------------------------------------------------
  // Commits
  // ---------------------------------------------------------------------------------------

  predicate SubmitsPlainSha(e: Event) {
    e.Review? ==> SubmitsPlain(e.review)
  }

  lemma {:induction false} RunKeepsPlain(env: CR.Env, w: World, events: seq<Event>)
    requires ShasArePlain(w.store.crs) && forall e :: e in events ==> SubmitsPlainSha(e)
    ensures ShasArePlain(Run(env, w, events).store.crs)
    decreases |events|
  {
    if events == [] {
    } else {
      assert SubmitsPlainSha(events[0]) by { assert events[0] in events; }
      if events[0].Review? { StepKeepsPlain(env, w.store.crs, w.store.tasks, events[0].review); }
      assert ShasArePlain(Next(env, w, events[0]).store.crs) by { hide ShasArePlain, CR.Step; }
      hide Next, ShasArePlain, SubmitsPlainSha;
      RunKeepsPlain(env, Next(env, w, events[0]), events[1..]);
    }
  }

  /** With plain SHAs submitted: in every reachable state no two approved change requests of different
      tasks have the same commit as the barrier compares it. */
  lemma ApprovedCommitsDifferOnPlainRuns(env: CR.Env, events: seq<Event>)
    requires OrderlyRun(env, START, events) && forall e :: e in events ==> SubmitsPlainSha(e)
    ensures ApprovedCommitsDifferTruly(Run(env, START, events).store.crs)
  {
    RunKeepsInvariant(env, START, events);
    RunKeepsPlain(env, START, events);
    hide Run, OrderlyRun;
    PlainCommitsDifferTruly(Run(env, START, events).store.crs);
  }

  /** And no commit, as the barrier compares it, is ever merged for two tasks, if no submission makes
      the store forget a merged one. */
  lemma NoPlainCommitIsMergedTwice(env: CR.Env, events: seq<Event>, a: Merge, b: Merge)
    requires RememberingRun(env, START, events) && forall e :: e in events ==> SubmitsPlainSha(e)
    requires a in Run(env, START, events).merges && b in Run(env, START, events).merges && a.taskId != b.taskId
    ensures CR.CompareSha(a.sha).Some? ==> CR.CompareSha(a.sha) != CR.CompareSha(b.sha)
  {
    var w := Run(env, START, events);
    NoCommitIsMergedTwice(env, START, events);
    RunKeepsPlain(env, START, events);
    EmptyIsNoCommit();
    hide Run, RememberingRun, IsPlain, CR.CompareSha, CR.ChangeRequest.Sha;
    if a.sha != "" && b.sha != "" {
      assert IsHeld(w.store.crs, a) && IsHeld(w.store.crs, b);
      PlainShasDifferTruly(a.sha, b.sha);
    }
  }
}
