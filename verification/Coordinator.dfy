/**
 The coordinator as one state machine: every interleaving of review, ledger, operation and task
 steps over the one shared store, with what an outside observer could write down beside it.
 */
module Coordinator {
  import opened Prelude
  import opened Text
  import opened Tasks
  import CR = ChangeRequests
  import L = Ledger
  import Ops = Operations

  datatype Store = Store(crs: CR.Crs, tasks: seq<Task>, ledger: L.Ledger, ops: Ops.Indexes)

  const EMPTY: Store := Store(map[], [], L.EMPTY, Ops.EMPTY)

  datatype Event =
    | Review(review: CR.ReviewEvent)
    | Spend(spend: L.LedgerEvent)
    | Operate(operate: Ops.OpEvent)
    | CreateTask(id: string, tags: seq<string>)
    | ResetTask(taskId: string)

  function Step(env: CR.Env, s: Store, e: Event): Store {
    match e
    case Review(r) => var (crs', tasks') := CR.Step(env, s.crs, s.tasks, r); s.(crs := crs', tasks := tasks')
    case Spend(l) => var (ledger', tasks') := L.Step(s.ledger, s.tasks, l); s.(ledger := ledger', tasks := tasks')
    case Operate(o) => var (ops', tasks') := Ops.Step(s.ops, s.tasks, o); s.(ops := ops', tasks := tasks')
    case CreateTask(id, tags) => s.(tasks := [Task(id, Open, None, None, tags)] + s.tasks)
    case ResetTask(id) => s.(tasks := UpdateFirst(s.tasks, id, Reopened))
  }

  // ---------------------------------------------------------------------------------------
  // Observed runs
  // ---------------------------------------------------------------------------------------

  /** An approval that merged, as it was answered. */
  datatype Merge = Merge(taskId: string, crId: string, sha: string, exitCode: Option<int>)

  /** The store, the merges so far, and the spending. */
  datatype World = World(store: Store, merges: seq<Merge>, spending: L.History)

  const START: World := World(EMPTY, [], L.History([], 0))

  function Merges(env: CR.Env, s: Store, e: Event): bool {
    e.Review? && e.review.ApproveEvent?
    && CR.Approve(env, s.crs, s.tasks, e.review.request).0 == CR.ApprovedAndMerged
  }

  function Next(env: CR.Env, w: World, e: Event): World {
    var s := w.store;
    World(
      Step(env, s, e),
      if Merges(env, s, e) then
        var cr := s.crs[e.review.request.crId];
        w.merges + [Merge(cr.taskId, cr.id, cr.Sha(), cr.ExitCode())]
      else w.merges,
      if e.Spend? then L.Observe(w.spending, s.ledger, s.tasks, e.spend) else w.spending)
  }

  function Run(env: CR.Env, w: World, events: seq<Event>): World
    decreases |events|
  {
    if events == [] then w else Run(env, Next(env, w, events[0]), events[1..])
  }

  /** What callers see to: change requests arrive unreviewed, and new tasks and operations get ids
      not in use. */
  ghost predicate Orderly(s: Store, e: Event) {
    match e
    case Review(r) =>
      && CR.ArrivesUnreviewed(r)
      && (r.QaEvent? && r.failed ==> Find(s.tasks, r.bugTaskId).None?)
    case Spend(_) => true
    case Operate(o) => Ops.FreshId(s.ops, o)
    case CreateTask(id, _) => Find(s.tasks, id).None?
    case ResetTask(_) => true
  }

  ghost predicate OrderlyRun(env: CR.Env, w: World, events: seq<Event>)
    decreases |events|
  {
    events == [] || (Orderly(w.store, events[0]) && OrderlyRun(env, Next(env, w, events[0]), events[1..]))
  }

  // ---------------------------------------------------------------------------------------
  // The invariant
  // ---------------------------------------------------------------------------------------

  ghost predicate TasksInOrder(s: Store) {
    UniqueIds(s.tasks) && L.DeferredAreQueued(s.tasks, s.ledger.queue)
  }

  ghost predicate HasMerge(merges: seq<Merge>, id: string) {
    exists m :: m in merges && m.taskId == id
  }

  /** Every merged task has a recorded merge behind it. */
  ghost predicate MergedHaveMerges(tasks: seq<Task>, merges: seq<Merge>) {
    forall i :: 0 <= i < |tasks| && tasks[i].status == Merged ==> HasMerge(merges, tasks[i].id)
  }

  /** No merge happened with a failing test. */
  ghost predicate MergesPassed(merges: seq<Merge>) {
    forall m :: m in merges ==> m.exitCode == None || m.exitCode == Some(0)
  }

  ghost predicate Invariant(env: CR.Env, w: World) {
    && CR.ReviewInvariant(env, w.store.crs)
    && MergedHaveMerges(w.store.tasks, w.merges) && MergesPassed(w.merges)
    && TasksInOrder(w.store)
    && L.Conserved(w.store.ledger, w.spending)
    && Ops.Agree(w.store.ops)
  }

  /** Where a task list came from: no id is duplicated, and no task became deferred. */
  ghost predicate TasksFrom(before: seq<Task>, after: seq<Task>) {
    && UniqueIds(after)
    && forall i :: 0 <= i < |after| && after[i].status == DeferredBudget ==>
         exists j :: 0 <= j < |before| && before[j].id == after[i].id && before[j].status == DeferredBudget
  }

  lemma InPlace(before: seq<Task>, after: seq<Task>)
    requires UniqueIds(before) && SameIds(before, after)
    requires forall i :: 0 <= i < |before| && after[i].status == DeferredBudget ==> before[i].status == DeferredBudget
    ensures TasksFrom(before, after)
  {
  }

  lemma InFront(before: seq<Task>, t: Task)
    requires UniqueIds(before) && Find(before, t.id).None? && t.status != DeferredBudget
    ensures TasksFrom(before, [t] + before)
  {
    var after := [t] + before;
    forall i | 0 <= i < |after| && after[i].status == DeferredBudget
      ensures exists j :: 0 <= j < |before| && before[j].id == after[i].id && before[j].status == DeferredBudget
    {
      assert before[i - 1] == after[i];
    }
  }

  lemma KeepsQueued(before: seq<Task>, after: seq<Task>, queue: seq<L.DeferredAction>)
    requires TasksFrom(before, after) && L.DeferredAreQueued(before, queue)
    ensures L.DeferredAreQueued(after, queue)
  {
    forall i | 0 <= i < |after| && after[i].status == DeferredBudget ensures L.IsQueued(queue, after[i].id) {
      var j :| 0 <= j < |before| && before[j].id == after[i].id && before[j].status == DeferredBudget;
    }
  }

  lemma ReviewTasks(env: CR.Env, s: Store, e: CR.ReviewEvent)
    requires UniqueIds(s.tasks) && Orderly(s, Review(e))
    ensures TasksFrom(s.tasks, CR.Step(env, s.crs, s.tasks, e).1)
  {
    hide CR.Quality, CR.CommitTaken, CR.HighRisk, CR.SamePerson;
    hide CR.KeyAllowed, CR.Abandoned, CR.SignatureValid, CR.ExitOk, CR.SupervisorName;
    hide CR.Union, CR.Fails;
    if e.QaEvent? && e.failed && e.crId in s.crs {
      InFront(s.tasks, CR.BugTask(e.bugTaskId));
    } else {
      InPlace(s.tasks, CR.Step(env, s.crs, s.tasks, e).1);
    }
  }

  /** Every step but a ledger step leaves the queue alone and makes no task deferred. */
  lemma StepKeepsTasksInOrder(env: CR.Env, s: Store, e: Event)
    requires TasksInOrder(s) && Orderly(s, e)
    ensures TasksInOrder(Step(env, s, e))
  {
    var after := Step(env, s, e).tasks;
    match e
    case Review(r) =>
      ReviewTasks(env, s, r);
      KeepsQueued(s.tasks, after, s.ledger.queue);
    case Spend(l) => L.StepKeepsDeferredQueued(s.ledger, s.tasks, l);
    case Operate(o) =>
      InPlace(s.tasks, after);
      KeepsQueued(s.tasks, after, s.ledger.queue);
    case CreateTask(id, tags) =>
      InFront(s.tasks, Task(id, Open, None, None, tags));
      KeepsQueued(s.tasks, after, s.ledger.queue);
    case ResetTask(id) =>
      InPlace(s.tasks, after);
      KeepsQueued(s.tasks, after, s.ledger.queue);
  }

  lemma MergedFromReview(env: CR.Env, w: World, e: CR.ReviewEvent, id: string)
    requires CR.HasMerged(CR.Step(env, w.store.crs, w.store.tasks, e).1, id)
    requires MergedHaveMerges(w.store.tasks, w.merges)
    ensures HasMerge(Next(env, w, Review(e)).merges, id)
  {
    var s := w.store;
    if CR.HasMerged(s.tasks, id) {
      var j :| 0 <= j < |s.tasks| && s.tasks[j].id == id && s.tasks[j].status == Merged;
      var m :| m in w.merges && m.taskId == id;
      assert m in Next(env, w, Review(e)).merges;
    } else {
      CR.MergedOnlyByApproval(env, s.crs, s.tasks, e, id);
      var cr := s.crs[e.request.crId];
      assert Merge(cr.taskId, cr.id, cr.Sha(), cr.ExitCode()) in Next(env, w, Review(e)).merges;
    }
  }

  lemma ApproveChecksExit(env: CR.Env, crs: CR.Crs, tasks: seq<Task>, r: CR.ApproveRequest)
    requires CR.Approve(env, crs, tasks, r).0 == CR.ApprovedAndMerged
    ensures r.crId in crs && CR.ExitOk(crs[r.crId]) && !CR.CommitTaken(crs, crs[r.crId])
  {
  }

  lemma LedgerMergesNothing(l: L.Ledger, tasks: seq<Task>, e: L.LedgerEvent, i: nat)
    requires var after := L.Step(l, tasks, e).1; i < |after| && after[i].status == Merged
    ensures i < |tasks| && tasks[i] == L.Step(l, tasks, e).1[i]
  {
    L.ReopenExactly(tasks, l.queue);
  }

  lemma StepKeepsMerges(env: CR.Env, w: World, e: Event)
    requires MergedHaveMerges(w.store.tasks, w.merges) && MergesPassed(w.merges)
    ensures var w' := Next(env, w, e); MergedHaveMerges(w'.store.tasks, w'.merges) && MergesPassed(w'.merges)
  {
    var w' := Next(env, w, e);
    if Merges(env, w.store, e) {
      ApproveChecksExit(env, w.store.crs, w.store.tasks, e.review.request);
    }
    var before, after := w.store.tasks, w'.store.tasks;
    forall i | 0 <= i < |after| && after[i].status == Merged ensures HasMerge(w'.merges, after[i].id) {
      match e
      case Review(r) => MergedFromReview(env, w, r, after[i].id);
      case Spend(l) => LedgerMergesNothing(w.store.ledger, before, l, i);
      case Operate(_) => assert before[i].status == Merged;
      case CreateTask(_, _) => assert before[i - 1] == after[i];
      case ResetTask(_) => assert before[i].status == Merged;
    }
  }

  /** One step of any kind keeps the whole invariant. */
  lemma StepKeepsInvariant(env: CR.Env, w: World, e: Event)
    requires Invariant(env, w) && Orderly(w.store, e)
    ensures Invariant(env, Next(env, w, e))
  {
    var s := w.store;
    StepKeepsTasksInOrder(env, s, e);
    StepKeepsMerges(env, w, e);
    hide CR.ReviewInvariant, MergedHaveMerges, MergesPassed, TasksInOrder, L.Conserved, Ops.Agree;
    hide CR.Step, L.Step, Ops.Step, L.Observe;
    match e
    case Review(r) => CR.StepKeepsReviewInvariant(env, s.crs, s.tasks, r);
    case Spend(l) => L.StepConserves(s.ledger, s.tasks, w.spending, l);
    case Operate(o) => Ops.StepKeepsAgreement(s.ops, s.tasks, o);
    case CreateTask(_, _) =>
    case ResetTask(_) =>
  }

  lemma StartSatisfiesInvariant(env: CR.Env)
    ensures Invariant(env, START)
  {
  }

  /** In every state an orderly run reaches: approved change requests of different tasks have
      different SHAs; high-risk approvals carry two valid signatures that the handler did not take
      for one person's; merged tasks were merged by an approval whose tests did not fail; every deferred
      task is queued; the ledger balances; and the operation indexes agree. */
  lemma {:induction false} RunKeepsInvariant(env: CR.Env, w: World, events: seq<Event>)
    requires Invariant(env, w) && OrderlyRun(env, w, events)
    ensures Invariant(env, Run(env, w, events))
    decreases |events|
  {
    if events == [] {
    } else {
      hide Invariant, Next;
      StepKeepsInvariant(env, w, events[0]);
      RunKeepsInvariant(env, Next(env, w, events[0]), events[1..]);
    }
  }

  lemma BothApprovals(env: CR.Env, crs: CR.Crs, k: string)
    requires CR.DualSigned(env, crs) && CR.KeysMatch(crs)
    requires k in crs && crs[k].status == CR.Approved && CR.HighRisk(crs[k])
    ensures var cr := crs[k];
            && cr.firstApproval.Some? && cr.secondApproval.Some?
            && CR.IsGenuine(env, k, cr.firstApproval.value) && CR.IsGenuine(env, k, cr.secondApproval.value)
            && !CR.SamePerson(cr.firstApproval.value, cr.secondApproval.value)
  {
    assert CR.IsDualSigned(env, crs[k]);
    hide CR.HighRisk, CR.SamePerson, CR.IsGenuine;
  }

  lemma ApprovedHighRiskIsDual(env: CR.Env, events: seq<Event>, k: string)
    requires OrderlyRun(env, START, events)
    requires k in Run(env, START, events).store.crs && Run(env, START, events).store.crs[k].status == CR.Approved
    requires CR.HighRisk(Run(env, START, events).store.crs[k])
    ensures var cr := Run(env, START, events).store.crs[k];
            && cr.firstApproval.Some? && cr.secondApproval.Some?
            && CR.IsGenuine(env, k, cr.firstApproval.value) && CR.IsGenuine(env, k, cr.secondApproval.value)
            && !CR.SamePerson(cr.firstApproval.value, cr.secondApproval.value)
  {
    RunKeepsInvariant(env, START, events);
    assert CR.DualSigned(env, Run(env, START, events).store.crs) && CR.KeysMatch(Run(env, START, events).store.crs);
    hide Run, OrderlyRun, Invariant;
    BothApprovals(env, Run(env, START, events).store.crs, k);
    hide *;
  }

  /** From the empty store, whatever happened: an approved change request that its risk level, its flag,
      its tags, its title or its files call sensitive carries two approvals under allowed keys, both
      with a signature that verifies for this very change request. The handler did not take them for
      one person's: the keys as written differ, and the names do not both name Ashley or Ward. */
  lemma HighRiskNeedsTwoApprovals(env: CR.Env, events: seq<Event>, k: string)
    requires OrderlyRun(env, START, events)
    requires k in Run(env, START, events).store.crs && Run(env, START, events).store.crs[k].status == CR.Approved
    requires var cr := Run(env, START, events).store.crs[k];
             || cr.riskLevel == CR.High || cr.needsSecondHuman || "needs-page" in cr.tags || "needs-logic" in cr.tags
             || exists word :: word in ["cashier", "escrow", "payout", "auth", "db", "infra"]
                  && (Contains(ToLower(cr.title), word)
                      || exists f :: f in cr.touchedFiles && Contains(ToLower(f), word))
    ensures var cr := Run(env, START, events).store.crs[k];
            && cr.firstApproval.Some? && cr.secondApproval.Some?
            && CR.IsGenuine(env, k, cr.firstApproval.value) && CR.IsGenuine(env, k, cr.secondApproval.value)
            && !CR.SamePerson(cr.firstApproval.value, cr.secondApproval.value)
            && ToLower(cr.firstApproval.value.reviewerPubkey) != ToLower(cr.secondApproval.value.reviewerPubkey)
  {
    CR.HighRiskMeans(Run(env, START, events).store.crs[k]);
    hide Run, OrderlyRun, CR.HighRisk, CR.IsGenuine, Contains, ToLower;
    ApprovedHighRiskIsDual(env, events, k);
  }

  /** From the empty store: a merged task has an approval behind it whose tests did not fail, and
      approved change requests of different tasks have different SHAs, as they are written. */
  lemma MergedTasksWereApproved(env: CR.Env, events: seq<Event>, id: string, a: string, b: string)
    requires OrderlyRun(env, START, events)
    ensures var w := Run(env, START, events);
            && (CR.HasMerged(w.store.tasks, id) ==>
                  exists m :: m in w.merges && m.taskId == id && (m.exitCode == None || m.exitCode == Some(0)))
            && (a in w.store.crs && b in w.store.crs
                && CR.AreApprovedApart(w.store.crs[a], w.store.crs[b]) && w.store.crs[a].Sha() != "" ==>
                  w.store.crs[a].Sha() != w.store.crs[b].Sha())
  {
    var w := Run(env, START, events);
    RunKeepsInvariant(env, START, events);
    hide Run, OrderlyRun;
    if CR.HasMerged(w.store.tasks, id) {
      var j :| 0 <= j < |w.store.tasks| && w.store.tasks[j].id == id && w.store.tasks[j].status == Merged;
      assert HasMerge(w.merges, id);
    }
  }

  /** From the empty store: a manual reset empties the queue and leaves no task deferred. */
  lemma ResetReopensEveryDeferredTask(env: CR.Env, events: seq<Event>)
    requires OrderlyRun(env, START, events)
    ensures var s := Step(env, Run(env, START, events).store, Spend(L.Reset));
            s.ledger.queue == [] && L.NoneDeferred(s.tasks) && s.ledger.spent == 0.0
  {
    var s := Run(env, START, events).store;
    RunKeepsInvariant(env, START, events);
    assert TasksInOrder(s);
    hide Run, OrderlyRun, Invariant;
    L.StepKeepsDeferredQueued(s.ledger, s.tasks, L.Reset);
  }

  // ---------------------------------------------------------------------------------------
  // No commit is merged for two tasks
  // ---------------------------------------------------------------------------------------

  /** A stored change request has the task and the SHA of a merge. */
  ghost predicate IsHeld(crs: CR.Crs, m: Merge) {
    m.sha == "" || exists k :: k in crs && crs[k].taskId == m.taskId && crs[k].Sha() == m.sha
  }

  ghost predicate MergesAreHeld(w: World) {
    CR.KeysMatch(w.store.crs) && forall m :: m in w.merges ==> IsHeld(w.store.crs, m)
  }

  ghost predicate MergedCommitsDiffer(merges: seq<Merge>) {
    forall a, b :: a in merges && b in merges && a.taskId != b.taskId && a.sha != "" ==> a.sha != b.sha
  }

  ghost predicate IsHeldAfter(crs: CR.Crs, cr: CR.ChangeRequest, m: Merge) {
    IsHeld(crs - {cr.id}, m) || (cr.taskId == m.taskId && cr.Sha() == m.sha)
  }

  /** A submission does not replace the last change request that holds a merged commit by one of
      another task or commit. Under an id not in use it never does. */
  ghost predicate ForgetsNoMerge(w: World, e: Event) {
    e.Review? && e.review.SubmitEvent? && e.review.cr.id != "" ==>
      forall m :: m in w.merges ==> IsHeldAfter(w.store.crs, e.review.cr, m)
  }

  ghost predicate RememberingRun(env: CR.Env, w: World, events: seq<Event>)
    decreases |events|
  {
    events == [] || (ForgetsNoMerge(w, events[0]) && RememberingRun(env, Next(env, w, events[0]), events[1..]))
  }

  lemma NewKeysMatch(env: CR.Env, s: Store, e: CR.ReviewEvent)
    requires CR.KeysMatch(s.crs)
    ensures CR.KeysMatch(Step(env, s, Review(e)).crs)
  {
    var crs' := Step(env, s, Review(e)).crs;
    forall k | k in crs' ensures crs'[k].id == k {
      CR.StepOrigin(env, s.crs, s.tasks, e, k);
    }
    hide CR.Step;
  }

  lemma PutHolds(crs: CR.Crs, cr: CR.ChangeRequest, stored: CR.ChangeRequest, m: Merge)
    requires stored.id == cr.id && stored.taskId == cr.taskId && stored.Sha() == cr.Sha()
    ensures IsHeld(crs[cr.id := stored], m) <==> IsHeldAfter(crs, cr, m)
  {
    var crs' := crs[cr.id := stored];
    hide CR.ChangeRequest.Sha;
    if IsHeld(crs', m) && m.sha != "" {
      var k :| k in crs' && crs'[k].taskId == m.taskId && crs'[k].Sha() == m.sha;
      assert k != cr.id ==> k in crs - {cr.id} && (crs - {cr.id})[k] == crs'[k];
    }
    if IsHeldAfter(crs, cr, m) && m.sha != "" {
      if cr.taskId == m.taskId && cr.Sha() == m.sha {
        assert crs'[cr.id] == stored;
      } else {
        var k :| k in crs - {cr.id} && crs[k].taskId == m.taskId && crs[k].Sha() == m.sha;
        assert crs'[k] == crs[k];
      }
    }
  }

  lemma SameCommitsHold(before: CR.Crs, after: CR.Crs, m: Merge)
    requires before.Keys <= after.Keys && forall k :: k in before ==> CR.SameCommit(after[k], before[k])
    requires IsHeld(before, m)
    ensures IsHeld(after, m)
  {
    hide CR.ChangeRequest.Sha;
    if m.sha != "" {
      var k :| k in before && before[k].taskId == m.taskId && before[k].Sha() == m.sha;
      assert CR.SameCommit(after[k], before[k]);
    }
  }

  /** A step other than a submission keeps what is stored and merges what is stored. */
  lemma OtherStepHolds(env: CR.Env, w: World, e: Event)
    requires MergesAreHeld(w) && !(e.Review? && e.review.SubmitEvent?)
    ensures MergesAreHeld(Next(env, w, e))
  {
    var w', crs := Next(env, w, e), w.store.crs;
    if e.Review? {
      NewKeysMatch(env, w.store, e.review);
      CR.StepKeepsKeys(env, crs, w.store.tasks, e.review);
      forall k | k in crs ensures CR.SameCommit(w'.store.crs[k], crs[k]) {
        CR.StepOrigin(env, crs, w.store.tasks, e.review, k);
        hide CR.Step;
      }
      if Merges(env, w.store, e) {
        ApproveChecksExit(env, crs, w.store.tasks, e.review.request);
        var cr := crs[e.review.request.crId];
        assert IsHeld(crs, Merge(cr.taskId, cr.id, cr.Sha(), cr.ExitCode()));
      }
      hide CR.Step, CR.Approve, IsHeld, CR.SameCommit;
      forall m | m in w'.merges ensures IsHeld(w'.store.crs, m) {
        SameCommitsHold(crs, w'.store.crs, m);
      }
    }
  }

  /** A step leaves every merged commit held exactly if it forgets none: only a submission that takes
      over an id can. */
  lemma StepHoldsIff(env: CR.Env, w: World, e: Event)
    requires MergesAreHeld(w)
    ensures MergesAreHeld(Next(env, w, e)) <==> ForgetsNoMerge(w, e)
  {
    if e.Review? && e.review.SubmitEvent? {
      var cr, crs := e.review.cr, w.store.crs;
      NewKeysMatch(env, w.store, e.review);
      if cr.id != "" {
        var stored := CR.SubmittedIsUnreviewed(crs, w.store.tasks, cr);
        assert Next(env, w, e).store.crs == crs[cr.id := stored] && Next(env, w, e).merges == w.merges;
        hide CR.Submit, Next, IsHeld, IsHeldAfter;
        forall m ensures IsHeld(crs[cr.id := stored], m) <==> IsHeldAfter(crs, cr, m) { PutHolds(crs, cr, stored, m); }
      } else {
        assert Next(env, w, e).store.crs == crs && Next(env, w, e).merges == w.merges by {
          hide CR.Quality;
        }
        hide Next, IsHeld;
      }
    } else {
      OtherStepHolds(env, w, e);
    }
  }

  lemma NotTakenMeans(crs: CR.Crs, cr: CR.ChangeRequest)
    requires CR.KeysMatch(crs) && cr.id in crs && crs[cr.id] == cr && !CR.CommitTaken(crs, cr)
    ensures forall k :: k in crs && crs[k].taskId != cr.taskId && cr.Sha() != "" ==> crs[k].Sha() != cr.Sha()
  {
    forall k | k in crs && crs[k].taskId != cr.taskId && cr.Sha() != "" ensures crs[k].Sha() != cr.Sha() {
      assert crs[k].id == k && k != cr.id;
    }
  }

  /** While merged commits are held, no step merges one for a second task. */
  lemma StepKeepsMergedCommits(env: CR.Env, w: World, e: Event)
    requires MergesAreHeld(w) && MergedCommitsDiffer(w.merges)
    ensures MergedCommitsDiffer(Next(env, w, e).merges)
  {
    var crs := w.store.crs;
    if Merges(env, w.store, e) {
      var cr := crs[e.review.request.crId];
      ApproveChecksExit(env, crs, w.store.tasks, e.review.request);
      NotTakenMeans(crs, cr);
      hide CR.CommitTaken, CR.Approve, Step, CR.ChangeRequest.Sha;
      forall m | m in w.merges && m.taskId != cr.taskId && cr.Sha() != "" ensures m.sha != cr.Sha() {
        if m.sha != "" {
          var k :| k in crs && crs[k].taskId == m.taskId && crs[k].Sha() == m.sha;
        }
      }
    }
  }

  /** Over a whole run in which no submission makes the store forget a merged commit, no SHA, as
      written, is merged for two tasks, even if one was merged, reopened and revised in between. */
  lemma {:induction false} NoCommitIsMergedTwice(env: CR.Env, w: World, events: seq<Event>)
    requires MergesAreHeld(w) && MergedCommitsDiffer(w.merges) && RememberingRun(env, w, events)
    ensures MergesAreHeld(Run(env, w, events)) && MergedCommitsDiffer(Run(env, w, events).merges)
    decreases |events|
  {
    if events == [] {
    } else {
      StepHoldsIff(env, w, events[0]);
      StepKeepsMergedCommits(env, w, events[0]);
      hide Next, MergesAreHeld, MergedCommitsDiffer, ForgetsNoMerge;
      NoCommitIsMergedTwice(env, Next(env, w, events[0]), events[1..]);
    }
  }

  /** What passes the barrier is not taken for approval either, and its tests did not fail. */
  lemma BarrierFreesCommit(crs: CR.Crs, cr: CR.ChangeRequest, stored: CR.ChangeRequest)
    requires CR.KeysMatch(crs) && CR.Quality(cr, crs) == CR.Valid
    requires stored.id == cr.id && stored.taskId == cr.taskId && stored.Sha() == cr.Sha()
    requires stored.ExitCode() == cr.ExitCode()
    ensures !CR.CommitTaken(crs[cr.id := stored], stored) && CR.ExitOk(stored)
  {
    CR.QualityMeans(cr, crs);
    assert CR.BuildOk(cr);
    hide CR.Quality, CR.QaOk, CR.DiffOk, CR.CompareSha;
    var crs' := crs[cr.id := stored];
    forall k | k in crs' && crs'[k].id != stored.id && crs'[k].taskId != stored.taskId
      ensures crs'[k].Sha() != stored.Sha()
    {
      assert k != cr.id && crs'[k] == crs[k];
    }
  }

  /** The condition cannot be spared. A submission of another task with a merged commit that nothing
      else holds, for example under the id of the merged change request itself, passes the barrier,
      and once approved the commit is merged for a second task. */
  lemma ForgottenCommitIsMergedTwice(env: CR.Env, w: World, cr: CR.ChangeRequest, r: CR.ApproveRequest, m: Merge)
    requires CR.KeysMatch(w.store.crs) && m in w.merges && m.sha != "" && !IsHeld(w.store.crs - {cr.id}, m)
    requires cr.id != "" && cr.Sha() == m.sha && cr.taskId != m.taskId && CR.Quality(cr, w.store.crs) == CR.Valid
    requires !CR.HighRisk(CR.Prepared(cr, w.store.tasks))
    requires r.crId == cr.id && CR.KeyAllowed(env.supervisors, r.reviewerPubkey) && r.isAdmin && r.signature != ""
    requires CR.SignatureValid(env, r.crId, r.Given(), r.rationale)
    ensures var w1 := Next(env, w, Review(CR.SubmitEvent(cr)));
            var w2 := Next(env, w1, Review(CR.ApproveEvent(r)));
            !MergedCommitsDiffer(w2.merges)
  {
    var e1, e2 := Review(CR.SubmitEvent(cr)), Review(CR.ApproveEvent(r));
    var stored := CR.SubmittedIsUnreviewed(w.store.crs, w.store.tasks, cr);
    var w1 := Next(env, w, e1);
    assert w1.store.crs == w.store.crs[cr.id := stored] && w1.merges == w.merges by {
      hide CR.Submit, CR.Quality;
    }
    assert !CR.CommitTaken(w1.store.crs, stored) && CR.ExitOk(stored) by {
      BarrierFreesCommit(w.store.crs, cr, stored);
    }
    hide CR.Quality, CR.Submit, CR.Prepared;
    assert CR.Approve(env, w1.store.crs, w1.store.tasks, r).0 == CR.ApprovedAndMerged by {
      hide CR.KeyAllowed, CR.SignatureValid, CR.HighRisk, CR.CommitTaken, CR.ExitOk;
    }
    hide CR.Approve, CR.Step, CR.CommitTaken, CR.HighRisk, CR.SignatureValid, CR.KeyAllowed;
    var second := Merge(stored.taskId, stored.id, stored.Sha(), stored.ExitCode());
    var w2 := Next(env, w1, e2);
    assert w2.merges == w.merges + [second];
    assert m in w2.merges && second in w2.merges;
  }

  // ---------------------------------------------------------------------------------------
  // Spending over whole runs
  // ---------------------------------------------------------------------------------------

  /** No reconfiguration sets a lower cap. */
  ghost predicate CapKept(s: Store, e: Event) {
    e.Spend? && e.spend.Configure? ==> e.spend.cap >= s.ledger.Cap()
  }

  ghost predicate CapKeptRun(env: CR.Env, w: World, events: seq<Event>)
    decreases |events|
  {
    events == [] || (CapKept(w.store, events[0]) && CapKeptRun(env, Next(env, w, events[0]), events[1..]))
  }

  /** On every run that does not lower the cap, spending stays within it. */
  lemma {:induction false} RunStaysWithinCap(env: CR.Env, w: World, events: seq<Event>)
    requires L.WithinCap(w.store.ledger) && w.store.ledger.Cap() >= 0.0 && CapKeptRun(env, w, events)
    ensures L.WithinCap(Run(env, w, events).store.ledger)
    decreases |events|
  {
    if events == [] {
    } else {
      var s, e := w.store, events[0];
      if e.Spend? { L.StepStaysWithinCapIff(s.ledger, s.tasks, e.spend); }
      RunStaysWithinCap(env, Next(env, w, e), events[1..]);
    }
  }

  lemma NoDayResets(env: CR.Env, w: World, e: Event)
    requires w.store.ledger.lastResetDay.None? && w.spending.mark == 0 && L.Conserved(w.store.ledger, w.spending)
    requires e != Spend(L.Reset)
    ensures var w' := Next(env, w, e);
            w'.store.ledger.lastResetDay.None? && w'.spending.mark == 0 && L.Conserved(w'.store.ledger, w'.spending)
  {
    var s := w.store;
    if e.Spend? {
      L.NeverResetsByDay(s.ledger, s.tasks, e.spend);
      L.StepConserves(s.ledger, s.tasks, w.spending, e.spend);
    }
    hide L.Step, L.Conserved, L.Resets, CR.Step, Ops.Step;
  }

  /** From the empty store the day of the last reset is never written, so no new day ever resets
      the ledger: without a manual reset the total counts every paid action of every day. */
  lemma {:induction false} NoDayResetsTheLedger(env: CR.Env, w: World, events: seq<Event>)
    requires w.store.ledger.lastResetDay.None? && w.spending.mark == 0 && L.Conserved(w.store.ledger, w.spending)
    requires Spend(L.Reset) !in events
    ensures var w' := Run(env, w, events);
            w'.store.ledger.lastResetDay.None? && w'.store.ledger.spent == L.PaidCost(w'.spending.executed)
    decreases |events|
  {
    if events == [] {
      assert w.spending.executed[0..] == w.spending.executed;
    } else {
      assert events[0] in events;
      NoDayResets(env, w, events[0]);
      hide Next, L.Conserved;
      NoDayResetsTheLedger(env, Next(env, w, events[0]), events[1..]);
    }
  }

  // ---------------------------------------------------------------------------------------
  // Operations over whole runs
  // ---------------------------------------------------------------------------------------

  /** No claim and no update of the run opens a second operation of a task. */
  ghost predicate OpensNoSecond(s: Store, e: Event) {
    e.Operate? ==> Ops.OpensNoSecond(s.ops, s.tasks, e.operate)
  }

  ghost predicate NoSecondRun(env: CR.Env, w: World, events: seq<Event>)
    decreases |events|
  {
    events == [] || (OpensNoSecond(w.store, events[0]) && NoSecondRun(env, Next(env, w, events[0]), events[1..]))
  }

  ghost predicate OneOpenAfter(env: CR.Env, w: World, events: seq<Event>) {
    Ops.OneOpen(Run(env, w, events).store.ops)
  }

  lemma OperationStep(env: CR.Env, w: World, e: Event)
    requires Ops.Agree(w.store.ops) && Ops.OneOpen(w.store.ops) && Orderly(w.store, e)
    ensures Ops.Agree(Next(env, w, e).store.ops)
    ensures Ops.OneOpen(Next(env, w, e).store.ops) <==> OpensNoSecond(w.store, e)
  {
    var s := w.store;
    if e.Operate? {
      Ops.StepKeepsAgreement(s.ops, s.tasks, e.operate);
      Ops.StepKeepsOneOpenIff(s.ops, s.tasks, e.operate);
    }
    hide Ops.Agree, Ops.OneOpen, Ops.OpensNoSecond, CR.Step, L.Step, Ops.Step;
  }

  lemma Shifted(env: CR.Env, w: World, w': World, events: seq<Event>, rest: seq<Event>)
    requires |events| == |rest| + 1 && OneOpenAfter(env, w, events[..0])
    requires forall i :: 0 <= i <= |rest| ==> OneOpenAfter(env, w, events[..i + 1]) == OneOpenAfter(env, w', rest[..i])
    ensures (forall i :: 0 <= i <= |events| ==> OneOpenAfter(env, w, events[..i]))
       <==> forall i :: 0 <= i <= |rest| ==> OneOpenAfter(env, w', rest[..i])
  {
    hide OneOpenAfter;
    if forall i :: 0 <= i <= |rest| ==> OneOpenAfter(env, w', rest[..i]) {
      forall i | 0 < i <= |events| ensures OneOpenAfter(env, w, events[..i]) {
        assert OneOpenAfter(env, w, events[..i - 1 + 1]) == OneOpenAfter(env, w', rest[..i - 1]);
      }
    }
  }

  /** In every state on the way no task has two open operations exactly if no step opens a second. */
  lemma {:induction false} RunKeepsOneOpenIff(env: CR.Env, w: World, events: seq<Event>)
    requires Ops.Agree(w.store.ops) && Ops.OneOpen(w.store.ops) && OrderlyRun(env, w, events)
    ensures NoSecondRun(env, w, events) <==> forall i :: 0 <= i <= |events| ==> OneOpenAfter(env, w, events[..i])
    decreases |events|
  {
    if events == [] {
      assert events[..0] == [];
    } else {
      var w', rest := Next(env, w, events[0]), events[1..];
      OperationStep(env, w, events[0]);
      assert events[..0] == [] && OneOpenAfter(env, w, []);
      forall i | 0 <= i <= |rest| ensures OneOpenAfter(env, w, events[..i + 1]) == OneOpenAfter(env, w', rest[..i]) {
        assert events[..i + 1][1..] == rest[..i];
      }
      assert rest[..0] == [] && (OneOpenAfter(env, w', rest[..0]) <==> Ops.OneOpen(w'.store.ops));
      hide Next, Ops.Agree, Ops.OneOpen, OpensNoSecond, OneOpenAfter;
      if OpensNoSecond(w.store, events[0]) {
        RunKeepsOneOpenIff(env, w', rest);
        Shifted(env, w, w', events, rest);
      } else {
        assert !OneOpenAfter(env, w, events[..0 + 1]);
      }
    }
  }

  /** Updates are of operations that no open one has superseded. */
  ghost predicate UpdatesCurrent(s: Store, e: Event) {
    e.Operate? && e.operate.UpdateEvent? ==> Ops.IsCurrent(s.ops, e.operate.update)
  }

  ghost predicate CurrentRun(env: CR.Env, w: World, events: seq<Event>)
    decreases |events|
  {
    events == [] || (UpdatesCurrent(w.store, events[0]) && CurrentRun(env, Next(env, w, events[0]), events[1..]))
  }

  lemma {:induction false} RunKeepsIndexed(env: CR.Env, w: World, events: seq<Event>)
    requires Ops.Agree(w.store.ops) && Ops.OpenAreIndexed(w.store.ops)
    requires OrderlyRun(env, w, events) && CurrentRun(env, w, events)
    ensures Ops.Agree(Run(env, w, events).store.ops) && Ops.OpenAreIndexed(Run(env, w, events).store.ops)
    decreases |events|
  {
    if events == [] {
    } else {
      var s, e := w.store, events[0];
      match e {
        case Operate(o) =>
          Ops.StepKeepsAgreement(s.ops, s.tasks, o);
          match o {
            case ClaimEvent(r) => Ops.ClaimKeepsIndexed(s.ops, s.tasks, r);
            case UpdateEvent(u) => Ops.UpdateKeepsIndexedIff(s.ops, u);
          }
        case _ =>
      }
      hide Ops.Agree, Ops.OpenAreIndexed, CR.Step, L.Step, Ops.Claim, Ops.Update;
      RunKeepsIndexed(env, Next(env, w, e), events[1..]);
    }
  }

  /** From the empty store, with fresh ids and no update of a superseded operation, no task ever has
      two open operations, and its open one is the one it is indexed with. */
  lemma NoTaskHasTwoOpenOperations(env: CR.Env, events: seq<Event>)
    requires OrderlyRun(env, START, events) && CurrentRun(env, START, events)
    ensures Ops.OneOpen(Run(env, START, events).store.ops) && Ops.OpenAreIndexed(Run(env, START, events).store.ops)
  {
    RunKeepsIndexed(env, START, events);
    hide Run, OrderlyRun, CurrentRun;
    Ops.IndexedMeansOneOpen(Run(env, START, events).store.ops);
  }

  /** In every reachable state a claim by a named agent creates an operation exactly if its key is
      new, claiming is not paused, and its target is open, has no review and no live operation in
      its index entry; the new one then is live and indexed. */
  lemma LiveOperationsBlockClaims(env: CR.Env, events: seq<Event>, r: Ops.ClaimRequest)
    requires OrderlyRun(env, START, events) && r.agentId != "" && r.agentPubkey != ""
    ensures var s := Run(env, START, events).store;
            var (outcome, ops', _) := Ops.Claim(s.ops, s.tasks, r);
            var i := Ops.Target(s.tasks, r);
            && (outcome.NewOperation? <==>
                  && Ops.ClaimKey(r) !in s.ops.byKey && !r.paused && i.Some?
                  && s.tasks[i.value].status == Open && s.tasks[i.value].changeRequestId.None?
                  && !Ops.IsLive(s.ops, s.tasks[i.value].id, r.now))
            && (outcome.NewOperation? ==> Ops.IsLive(ops', s.tasks[i.value].id, r.now))
  {
    RunKeepsInvariant(env, START, events);
    var s := Run(env, START, events).store;
    assert Ops.Agree(s.ops);
    hide Run, OrderlyRun, Invariant, Ops.Agree;
    Ops.ClaimExactly(s.ops, s.tasks, r);
  }

  lemma {:induction false} KeysAreRemembered(env: CR.Env, w: World, events: seq<Event>, key: string)
    requires key in w.store.ops.byKey
    ensures key in Run(env, w, events).store.ops.byKey
    decreases |events|
  {
    if events == [] {
    } else {
      if events[0].Operate? { Ops.KeysAreKept(w.store.ops, w.store.tasks, events[0].operate); }
      KeysAreRemembered(env, Next(env, w, events[0]), events[1..], key);
    }
  }

  lemma {:induction false} RunKeepsKeysKnown(env: CR.Env, w: World, events: seq<Event>)
    requires Ops.Agree(w.store.ops) && Ops.KeysAreKnown(w.store.ops) && OrderlyRun(env, w, events)
    ensures Ops.Agree(Run(env, w, events).store.ops) && Ops.KeysAreKnown(Run(env, w, events).store.ops)
    decreases |events|
  {
    if events == [] {
    } else {
      var s, e := w.store, events[0];
      if e.Operate? {
        Ops.StepKeepsAgreement(s.ops, s.tasks, e.operate);
        Ops.StepKeepsKeysKnown(s.ops, s.tasks, e.operate);
      }
      hide Ops.Agree, Ops.KeysAreKnown, CR.Step, L.Step, Ops.Step;
      RunKeepsKeysKnown(env, Next(env, w, e), events[1..]);
    }
  }

  /** In every reachable state: when an agent's claim of one task without a key went through, its claim
      of another open task without review or live operation goes through too, unless it had claimed
      that one before. */
  lemma AgentsClaimTaskByTask(env: CR.Env, events: seq<Event>, first: Ops.ClaimRequest, second: Ops.ClaimRequest,
      i: nat)
    requires OrderlyRun(env, START, events) && first.idempotencyKey.None? && second.idempotencyKey.None?
    requires first.agentId == second.agentId && second.agentPubkey != "" && !second.paused
    requires first.taskId.Some? && second.taskId.Some? && first.taskId != second.taskId
    requires var s := Run(env, START, events).store;
             && Ops.Claim(s.ops, s.tasks, first).0.NewOperation? && Find(s.tasks, second.taskId.value) == Some(i)
             && s.tasks[i].status == Open && s.tasks[i].changeRequestId.None?
             && !Ops.IsLive(s.ops, second.taskId.value, second.now)
             && "claim_" + second.taskId.value + "_" + second.agentId !in s.ops.byKey
    ensures var s := Run(env, START, events).store;
            var s1 := Step(env, s, Operate(Ops.ClaimEvent(first)));
            Ops.Claim(s1.ops, s1.tasks, second).0.NewOperation?
  {
    RunKeepsKeysKnown(env, START, events);
    var s := Run(env, START, events).store;
    hide Run, OrderlyRun, Ops.Agree, Ops.KeysAreKnown;
    Ops.AnotherTaskCanBeClaimed(s.ops, s.tasks, first, second, i);
  }

  /** Once a claim went through, a claim under the same key changes nothing, however much has
      happened in between. */
  lemma RepeatedClaimChangesNothing(env: CR.Env, w: World, first: Ops.ClaimRequest, events: seq<Event>,
      again: Ops.ClaimRequest)
    requires Ops.Claim(w.store.ops, w.store.tasks, first).0.NewOperation?
    requires Ops.ClaimKey(again) == Ops.ClaimKey(first) && again.agentId != "" && again.agentPubkey != ""
    ensures var w' := Run(env, Next(env, w, Operate(Ops.ClaimEvent(first))), events);
            Step(env, w'.store, Operate(Ops.ClaimEvent(again))) == w'.store
            && Ops.Claim(w'.store.ops, w'.store.tasks, again).0.Repeated?
  {
    var w1 := Next(env, w, Operate(Ops.ClaimEvent(first)));
    Ops.ClaimIsRemembered(w.store.ops, w.store.tasks, first);
    KeysAreRemembered(env, w1, events, Ops.ClaimKey(first));
    Ops.KnownKeyChangesNothing(Run(env, w1, events).store.ops, Run(env, w1, events).store.tasks, again);
  }

  /** But a claim of no task in particular works once for an agent without keys: after any further run
      the next one answers with the operation of the first and changes nothing. */
  lemma AgentsGetOneUnnamedTask(env: CR.Env, w: World, first: Ops.ClaimRequest, events: seq<Event>,
      again: Ops.ClaimRequest)
    requires Ops.Claim(w.store.ops, w.store.tasks, first).0.NewOperation?
    requires first.idempotencyKey.None? && first.taskId.None? && again.idempotencyKey.None? && again.taskId.None?
    requires again.agentId == first.agentId && again.agentPubkey != ""
    ensures var w' := Run(env, Next(env, w, Operate(Ops.ClaimEvent(first))), events);
            Step(env, w'.store, Operate(Ops.ClaimEvent(again))) == w'.store
            && Ops.Claim(w'.store.ops, w'.store.tasks, again).0.Repeated?
  {
    RepeatedClaimChangesNothing(env, w, first, events, again);
  }

  // ---------------------------------------------------------------------------------------
  // Creating and resetting tasks
  // ---------------------------------------------------------------------------------------

  /** A created task is open and free, in front of the others; a reset one, the first of its id, is
      open and unclaimed but keeps its change request. Neither touches anything else. */
  lemma TaskSteps(env: CR.Env, s: Store, id: string, tags: seq<string>)
    ensures var s' := Step(env, s, CreateTask(id, tags));
            && s' == s.(tasks := s'.tasks) && |s'.tasks| == |s.tasks| + 1 && s'.tasks[1..] == s.tasks
            && s'.tasks[0] == Task(id, Open, None, None, tags)
    ensures var s' := Step(env, s, ResetTask(id));
            && s' == s.(tasks := s'.tasks) && |s'.tasks| == |s.tasks|
            && forall i :: 0 <= i < |s.tasks| ==>
                 s'.tasks[i] == if s.tasks[i].id == id && IsFirst(s.tasks, i)
                                then s.tasks[i].(status := Open, claimedBy := None) else s.tasks[i]
  {
    hide IsFirst;
  }
}
