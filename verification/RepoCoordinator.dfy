/**
 The durable object itself: its storage keys as fields, its handlers as methods. Every method is
 tied to the step of `Coordinator` it performs; storage listings come in an arbitrary order.
 */
module RepoCoordinator {
  import opened Prelude
  import opened Tasks
  import opened CR = ChangeRequests
  import opened Envelopes
  import opened Hex
  import L = Ledger
  import Ops = Operations
  import Coordinator

  /** The keys of a storage listing, in some order. */
  method ListKeys(crs: Crs) returns (keys: seq<string>)
    ensures forall k :: k in keys <==> k in crs
    ensures forall i, j :: 0 <= i < j < |keys| ==> keys[i] != keys[j]
  {
    keys := [];
    var rest := crs.Keys;
    while rest != {}
      invariant rest <= crs.Keys
      invariant forall k :: k in keys <==> k in crs.Keys - rest
      invariant forall i, j :: 0 <= i < j < |keys| ==> keys[i] != keys[j]
      decreases rest
    {
      var k :| k in rest;
      assert k !in keys;
      assert forall i :: 0 <= i < |keys| ==> keys[i] in keys;
      keys := keys + [k];
      rest := rest - {k};
    }
  }

  /** `verifyCRQuality`: the loop over all change requests stops at the first clash. */
  method VerifyCrQuality(cr: ChangeRequest, all: Crs) returns (verdict: Verdict)
    ensures verdict == Quality(cr, all)
  {
    var exitCode := cr.ExitCode();
    if cr.buildFailed || (cr.testReport.Some? && !cr.testReport.value.passed)
      || (exitCode.Some? && exitCode.value != 0) {
      return BuildFailed;
    }
    if cr.qaStatus == QaFailed || true in cr.qaReportsFailed {
      return QaChecksFailed;
    }
    var sha := cr.BarrierSha();
    if sha.None? {
      return ShaMissing;
    }
    var keys := ListKeys(all);
    for i := 0 to |keys|
      invariant forall j :: 0 <= j < i ==> !Clashes(cr, all[keys[j]])
    {
      var other := all[keys[i]];
      if other.id == cr.id { continue; }
      var otherSha := other.BarrierSha();
      if otherSha.None? { continue; }
      if otherSha == sha {
        if other.taskId != cr.taskId || other.createdAt < cr.createdAt {
          assert keys[i] in all && Clashes(cr, all[keys[i]]);
          return ShaReused;
        }
      }
    }
    assert forall k :: k in all ==> !Clashes(cr, all[k]) by {
      forall k | k in all ensures !Clashes(cr, all[k]) {
        assert k in keys;
      }
    }
    if !DiffOk(cr) {
      return NoDiff;
    }
    verdict := Valid;
  }

  class RepoCoordinator {
    const env: Env
    var crs: Crs
    var tasks: seq<Task>
    var ledger: L.Ledger
    var ops: Ops.Indexes

    /** Change requests are stored under their own ids. */
    ghost predicate Valid()
      reads this
    {
      KeysMatch(crs)
    }

    constructor (env: Env)
      ensures Valid() && Snapshot() == Coordinator.EMPTY && this.env == env
    {
      this.env := env;
      crs, tasks, ledger, ops := map[], [], L.EMPTY, Ops.EMPTY;
    }

    function Snapshot(): Coordinator.Store
      reads this
    {
      Coordinator.Store(crs, tasks, ledger, ops)
    }

    // --- Change requests ---

    /** `sanitizeAndVerifyCRs`: change requests and tasks are updated while the loop runs, in
        listing order; the outcome does not depend on that order. */
    method SanitizeAndVerifyCrs()
      requires Valid()
      modifies this`crs, this`tasks
      ensures Valid() && (crs, tasks) == Sweep(old(crs), old(tasks))
      ensures Snapshot() == Coordinator.Step(env, old(Snapshot()), Coordinator.Review(SweepEvent))
    {
      hide Quality, Fails, SweptCrs, SweptTasks, ReleaseFor;
      ghost var crs0, tasks0 := crs, tasks;
      var keys := ListKeys(crs);
      SweepBegins(crs0, tasks0);
      for i := 0 to |keys|
        invariant crs == SweptCrs(crs0, keys[..i]) && tasks == SweptTasks(crs0, tasks0, keys[..i])
      {
        SweepStep(crs0, tasks0, keys[..i], keys[i]);
        var cr := crs[keys[i]];
        assert keys[..i + 1] == keys[..i] + [keys[i]];
        QualityIgnoresReview(cr, cr, crs0, crs);
        assert Fails(crs0, keys[i]) <==> cr.Active() && Quality(cr, crs0) != CR.Valid by { FailsMeans(crs0, keys[i]); }
        if cr.Active() {
          var verdict := VerifyCrQuality(cr, crs);
          if verdict != CR.Valid {
            crs := crs[cr.id := cr.(status := FailedVerification)];
            ReleaseTask(cr.taskId, cr.id);
          }
        }
      }
      assert keys[..|keys|] == keys;
      SweepComplete(crs0, tasks0, keys);
      SweepKeepsSubmissions(crs0, tasks0);
    }

    /** The part of the sweep that lets go of the task of a failed change request. */
    method ReleaseTask(taskId: string, crId: string)
      modifies this`tasks
      ensures tasks == ReleaseFor(old(tasks), taskId, crId)
    {
      var t := FindLoop(tasks, taskId);
      if t.Some? && tasks[t.value].status == InReview && tasks[t.value].changeRequestId == Some(crId) {
        tasks := tasks[t.value := Released(tasks[t.value])];
      }
    }

    method SetTaskStatus(id: string, status: TaskStatus)
      modifies this`tasks
      ensures tasks == WithStatus(old(tasks), id, status)
    {
      var i := FindLoop(tasks, id);
      if i.Some? {
        tasks := tasks[i.value := tasks[i.value].(status := status)];
      }
    }

    /** `handleSubmitCR` */
    method HandleSubmitCr(submitted: ChangeRequest) returns (outcome: SubmitOutcome)
      requires Valid()
      modifies this`crs, this`tasks
      ensures Valid() && (outcome, crs, tasks) == Submit(old(crs), old(tasks), submitted)
      ensures Snapshot() == Coordinator.Step(env, old(Snapshot()), Coordinator.Review(SubmitEvent(submitted)))
    {
      hide Quality;
      if submitted.id == "" {
        return MissingId;
      }
      var cr := submitted;
      var verdict := VerifyCrQuality(cr, crs);
      if verdict != CR.Valid {
        crs := crs[cr.id := cr.(status := FailedVerification)];
        return Refused(verdict);
      }
      var i := FindLoop(tasks, cr.taskId);
      if i.Some? {
        var task := tasks[i.value];
        tasks := tasks[i.value := task.(status := InReview, changeRequestId := Some(cr.id))];
        if |task.tags| > 0 {
          cr := cr.(tags := Union(cr.tags, task.tags));
        }
      }
      if "needs-page" in cr.tags || "needs-logic" in cr.tags {
        cr := cr.(riskLevel := High);
      }
      crs := crs[cr.id := cr];
      return Submitted;
    }

    /** `handleApproveCR`: the search for a reused commit stops at the first one. */
    method HandleApproveCr(r: ApproveRequest) returns (outcome: ApproveOutcome)
      requires Valid()
      modifies this`crs, this`tasks
      ensures Valid() && (outcome, crs, tasks) == Approve(env, old(crs), old(tasks), r)
      ensures Snapshot() == Coordinator.Step(env, old(Snapshot()), Coordinator.Review(ApproveEvent(r)))
    {
      hide HighRisk, SamePerson, KeyAllowed, SupervisorName, SignatureValid, CommitTaken, WithStatus;
      if !KeyAllowed(env.supervisors, r.reviewerPubkey) { return UnknownSupervisor; }
      if !r.isAdmin { return NotAdmin; }
      if r.crId !in crs { return NotFound; }
      if r.signature == "" { return MissingSignature; }
      var valid := CheckSignature(r);
      if !valid { return BadSignature; }
      var cr := crs[r.crId];
      var reused := IsCommitTaken(cr);
      var exitCode := cr.ExitCode();
      if (exitCode.Some? && exitCode.value != 0) || reused {
        crs := crs[r.crId := cr.(status := FailedVerification)];
        return Blocked;
      }
      var approval := r.Given();
      if HighRisk(cr) {
        if cr.firstApproval.None? {
          crs := crs[r.crId := cr.(firstApproval := Some(approval), status := PendingReview)];
          return FirstOfTwo;
        }
        if SamePerson(cr.firstApproval.value, approval) {
          return SameSupervisor;
        }
        cr := cr.(secondApproval := Some(approval));
      }
      crs := crs[r.crId := cr.(status := Approved)];
      SetTaskStatus(cr.taskId, Merged);
      return ApprovedAndMerged;
    }

    /** The signature check: the envelope is built, both texts are decoded, and verification is
        asked only of a key and a signature of the right length. */
    method CheckSignature(r: ApproveRequest) returns (valid: bool)
      ensures valid == SignatureValid(env, r.crId, r.Given(), r.rationale)
    {
      var envelope := ComputeApproveEnvelope(r.timestamp, env.utf8(r.crId), env.utf8(r.rationale));
      var key := HexToBytesLoop(r.reviewerPubkey);
      var signature := HexToBytesLoop(r.signature);
      valid := false;
      if key.Length == 32 && signature.Length == 64 {
        valid := env.verify(key[..], envelope[..], signature[..]);
      }
    }

    method IsCommitTaken(cr: ChangeRequest) returns (taken: bool)
      ensures taken == CommitTaken(crs, cr)
    {
      var sha := cr.Sha();
      if sha == "" {
        return false;
      }
      var keys := ListKeys(crs);
      for i := 0 to |keys|
        invariant forall j :: 0 <= j < i ==>
                    !(crs[keys[j]].id != cr.id && crs[keys[j]].taskId != cr.taskId && crs[keys[j]].Sha() == sha)
      {
        var other := crs[keys[i]];
        if other.id != cr.id && other.taskId != cr.taskId {
          if other.Sha() == sha {
            assert keys[i] in crs;
            return true;
          }
        }
      }
      assert forall k :: k in crs ==> k in keys;
      taken := false;
    }

    /** `handleRejectCR` */
    method HandleRejectCr(crId: string, isAdmin: bool)
      requires Valid()
      modifies this`crs, this`tasks
      ensures Valid() && (crs, tasks) == Reject(old(crs), old(tasks), crId, isAdmin)
      ensures Snapshot() == Coordinator.Step(env, old(Snapshot()), Coordinator.Review(RejectEvent(crId, isAdmin)))
    {
      if !isAdmin || crId !in crs { return; }
      var cr := crs[crId];
      crs := crs[crId := cr.(status := Rejected)];
      var i := FindLoop(tasks, cr.taskId);
      if i.Some? {
        tasks := tasks[i.value := Reopened(tasks[i.value])];
      }
    }

    /** `handleRequestChangesCR` */
    method HandleRequestChangesCr(crId: string, isAdmin: bool)
      requires Valid()
      modifies this`crs, this`tasks
      ensures Valid() && (crs, tasks) == RequestChanges(old(crs), old(tasks), crId, isAdmin)
      ensures Snapshot() == Coordinator.Step(env, old(Snapshot()),
               Coordinator.Review(RequestChangesEvent(crId, isAdmin)))
    {
      if !isAdmin || crId !in crs { return; }
      var cr := crs[crId];
      crs := crs[crId := cr.(status := ChangesRequested)];
      SetTaskStatus(cr.taskId, TaskChangesRequested);
    }

    /** `handleQAReport` */
    method HandleQaReport(crId: string, failed: bool, bugTaskId: string)
      requires Valid()
      modifies this`crs, this`tasks
      ensures Valid() && (crs, tasks) == QaReport(old(crs), old(tasks), crId, failed, bugTaskId)
      ensures Snapshot() == Coordinator.Step(env, old(Snapshot()), Coordinator.Review(QaEvent(crId, failed, bugTaskId)))
    {
      if crId !in crs { return; }
      var cr := crs[crId];
      cr := cr.(qaReportsFailed := cr.qaReportsFailed + [failed]);
      cr := cr.(qaStatus := if true in cr.qaReportsFailed then QaFailed else QaPassed);
      if failed {
        tasks := [BugTask(bugTaskId)] + tasks;
        cr := cr.(status := ChangesRequested);
      }
      crs := crs[crId := cr];
    }

    /** `handleCreateTask` */
    method HandleCreateTask(id: string, tags: seq<string>)
      modifies this`tasks
      ensures Snapshot() == Coordinator.Step(env, old(Snapshot()), Coordinator.CreateTask(id, tags))
    {
      tasks := [Task(id, Open, None, None, tags)] + tasks;
    }

    /** The `reset-task` route; the change request of the task stays recorded. */
    method HandleResetTask(id: string) returns (found: bool)
      modifies this`tasks
      ensures Snapshot() == Coordinator.Step(env, old(Snapshot()), Coordinator.ResetTask(id))
      ensures found <==> Find(old(tasks), id).Some?
    {
      var i := FindLoop(tasks, id);
      if i.Some? {
        tasks := tasks[i.value := Reopened(tasks[i.value])];
      }
      found := i.Some?;
    }

    // --- Ledger ---

    /** `drainDeferredQueue`: each queued action looks its task up again. */
    method DrainDeferredQueue()
      modifies this`ledger, this`tasks
      ensures (ledger, tasks) == L.Drain(old(ledger), old(tasks))
    {
      var queue := ledger.queue;
      if |queue| > 0 {
        ledger := ledger.(queue := []);
        assert queue[0..] == queue;
        for i := 0 to |queue|
          invariant ledger == old(ledger).(queue := [])
          invariant L.Reopen(tasks, queue[i..]) == L.Reopen(old(tasks), queue)
        {
          assert queue[i..][1..] == queue[i + 1..];
          ghost var before := tasks;
          var t := FindLoop(tasks, queue[i].taskId);
          if t.Some? && tasks[t.value].status == DeferredBudget {
            tasks := tasks[t.value := Reopened(tasks[t.value])];
          }
          assert tasks == L.ReopenOne(before, queue[i].taskId);
        }
      }
    }

    /** `checkDailyReset` */
    method CheckDailyReset(currentDay: int)
      modifies this`ledger, this`tasks
      ensures (ledger, tasks) == L.DailyReset(old(ledger), old(tasks), currentDay)
      ensures Snapshot() == Coordinator.Step(env, old(Snapshot()), Coordinator.Spend(L.Status(currentDay)))
    {
      var stored := ledger.lastResetDay;
      var lastResetDay := if stored.Some? && stored.value != 0 then stored.value else currentDay;
      if currentDay > lastResetDay {
        ledger := ledger.(lastResetDay := Some(currentDay));
        ledger := ledger.(spent := 0.0);
        DrainDeferredQueue();
      }
    }

    /** `checkSpend` */
    method CheckSpend(kind: L.ActionKind, units: real, currentDay: int) returns (allowed: bool)
      modifies this`ledger, this`tasks
      ensures (allowed, ledger, tasks) == L.CheckSpend(old(ledger), old(tasks), kind, units, currentDay)
      ensures Snapshot() == Coordinator.Step(env, old(Snapshot()), Coordinator.Spend(L.Check(kind, units, currentDay)))
    {
      CheckDailyReset(currentDay);
      if kind == L.Free {
        return true;
      }
      return ledger.spent + L.CalculateCost(kind, units) <= ledger.Cap();
    }

    /** `recordLedgerAction` */
    method RecordLedgerAction(taskId: string, agentId: string, kind: L.ActionKind, units: real, currentDay: int)
      returns (executed: bool)
      modifies this`ledger, this`tasks
      ensures (executed, ledger, tasks)
               == L.RecordAction(old(ledger), old(tasks), taskId, agentId, kind, units, currentDay)
      ensures Snapshot() == Coordinator.Step(env, old(Snapshot()),
               Coordinator.Spend(L.Record(taskId, agentId, kind, units, currentDay)))
    {
      CheckDailyReset(currentDay);
      var cost := L.CalculateCost(kind, units);
      if kind == L.Free || ledger.spent + cost <= ledger.Cap() {
        if kind != L.Free {
          ledger := ledger.(spent := ledger.spent + cost);
        }
        var entries := ledger.entries + [L.LedgerRecord(taskId, agentId, kind, units, cost)];
        if |entries| > 200 {
          entries := entries[1..];
        }
        ledger := ledger.(entries := entries);
        return true;
      }
      ledger := ledger.(queue := ledger.queue + [L.DeferredAction(taskId, agentId, kind, units, cost)]);
      SetTaskStatus(taskId, DeferredBudget);
      return false;
    }

    /** `resetBudgetToday` */
    method ResetBudgetToday()
      modifies this`ledger, this`tasks
      ensures (ledger, tasks) == L.ResetBudget(old(ledger), old(tasks))
      ensures Snapshot() == Coordinator.Step(env, old(Snapshot()), Coordinator.Spend(L.Reset))
    {
      ledger := ledger.(spent := 0.0);
      DrainDeferredQueue();
    }

    /** The `ledger/config` route: a new cap if one is given, then the status with its daily reset. */
    method HandleLedgerConfig(cap: Option<real>, isAdmin: bool, currentDay: int)
      modifies this`ledger, this`tasks
      ensures Snapshot() ==
                if !isAdmin then old(Snapshot())
                else Coordinator.Step(env, old(Snapshot()), Coordinator.Spend(
                  if cap.Some? then L.Configure(cap.value, currentDay) else L.Status(currentDay)))
    {
      if !isAdmin { return; }
      if cap.Some? {
        ledger := ledger.(cap := cap);
      }
      CheckDailyReset(currentDay);
    }

    // --- Operations ---

    /** `saveOperation` */
    method SaveOperation(op: Ops.Op)
      modifies this`ops
      ensures ops == Ops.Save(old(ops), op)
    {
      ops := ops.(byId := ops.byId[op.id := op]);
      ops := ops.(byKey := ops.byKey[op.key := op]);
      ops := ops.(byTask := ops.byTask[op.taskId := op]);
    }

    /** `findOpenOperationForTask` */
    method FindOpenOperationForTask(taskId: string, now: int) returns (open: Option<Ops.Op>)
      modifies this`ops
      ensures (open, ops) == Ops.FindOpen(old(ops), taskId, now)
    {
      if taskId in ops.byTask {
        var op := ops.byTask[taskId];
        if op.status == Ops.Accepted || op.status == Ops.Running {
          if now - op.started > 300000 {
            SaveOperation(op.(status := Ops.OpFailed));
            return None;
          }
          return Some(op);
        }
      }
      return None;
    }

    /** `handleClaimTask` */
    method HandleClaimTask(r: Ops.ClaimRequest) returns (outcome: Ops.ClaimOutcome)
      modifies this`ops, this`tasks
      ensures (outcome, ops, tasks) == Ops.Claim(old(ops), old(tasks), r)
      ensures Snapshot() == Coordinator.Step(env, old(Snapshot()), Coordinator.Operate(Ops.ClaimEvent(r)))
    {
      if r.agentId == "" || r.agentPubkey == "" { return Ops.BadRequest; }
      var key := Ops.ClaimKey(r);
      if key in ops.byKey { return Ops.Repeated(ops.byKey[key]); }
      var target := Ops.Target(tasks, r);
      if target.Some? {
        var task := tasks[target.value];
        var open := FindOpenOperationForTask(task.id, r.now);
        var hasOpenPr := task.status == InReview || task.changeRequestId.Some?;
        if open.Some? || hasOpenPr { return Ops.Attached(open); }
      }
      if r.paused { return Ops.PausedBySupervisor; }
      if target.None? || tasks[target.value].status != Open { return Ops.NoTasks; }
      var task := tasks[target.value];
      tasks := tasks[target.value := task.(status := Claimed, claimedBy := Some(r.agentId))];
      var op := Ops.Op(r.opId, key, task.id, r.agentId, Ops.Accepted, r.now);
      SaveOperation(op);
      return Ops.NewOperation(op);
    }

    /** `handleUpdateOperation` */
    method HandleUpdateOperation(u: Ops.UpdateRequest)
      modifies this`ops
      ensures ops == Ops.Update(old(ops), u)
      ensures Snapshot() == Coordinator.Step(env, old(Snapshot()), Coordinator.Operate(Ops.UpdateEvent(u)))
    {
      if u.opId == "" { return; }
      var op: Ops.Op;
      if u.opId in ops.byId {
        op := ops.byId[u.opId];
      } else {
        op := Ops.Op(u.opId, if u.key.Some? then u.key.value else u.generatedKey,
                     if u.taskId.Some? then u.taskId.value else "unknown", "",
                     if u.status.Some? then u.status.value else Ops.Accepted, u.now);
      }
      if u.status.Some? { op := op.(status := u.status.value); }
      if u.agentId.Some? { op := op.(agentId := u.agentId.value); }
      SaveOperation(op);
    }
  }
}
