/**
 Operation records of `RepoCoordinator`: each is stored under three keys, by its id, by its
 idempotency key and by its task, and claiming a task goes through all three.
 */
module Operations {
  import opened Prelude
  import opened Tasks

  datatype OpStatus = Accepted | Running | OpDone | OpFailed

  datatype Op = Op(id: string, key: string, taskId: string, agentId: string, status: OpStatus, started: int)
  {
    predicate IsOpen() {
      status == Accepted || status == Running
    }
  }

  /** `op:`, `op_idemp:` and `op_task:` */
  datatype Indexes = Indexes(byId: map<string, Op>, byKey: map<string, Op>, byTask: map<string, Op>)

  const EMPTY: Indexes := Indexes(map[], map[], map[])
  const EXPIRY_MS: int := 300000

  /** `saveOperation` */
  function Save(x: Indexes, op: Op): Indexes {
    Indexes(x.byId[op.id := op], x.byKey[op.key := op], x.byTask[op.taskId := op])
  }

  ghost predicate Primary(x: Indexes, op: Op) {
    op.id in x.byId && x.byId[op.id] == op
  }

  /** The two secondary indexes hold, under the right keys, what the primary one holds. */
  ghost predicate Agree(x: Indexes) {
    && (forall i :: i in x.byId ==> x.byId[i].id == i)
    && (forall k :: k in x.byKey ==> x.byKey[k].key == k && Primary(x, x.byKey[k]))
    && (forall t :: t in x.byTask ==> x.byTask[t].taskId == t && Primary(x, x.byTask[t]))
  }

  /** No entry under another key or another task speaks of this operation. */
  ghost predicate Detached(x: Indexes, op: Op) {
    && (forall k :: k in x.byKey && k != op.key ==> x.byKey[k].id != op.id)
    && (forall t :: t in x.byTask && t != op.taskId ==> x.byTask[t].id != op.id)
  }

  /** Saving keeps the indexes in agreement exactly when no stale entry is left behind. */
  lemma SaveAgreesIff(x: Indexes, op: Op)
    requires Agree(x)
    ensures Agree(Save(x, op)) <==> Detached(x, op)
  {
    var x' := Save(x, op);
    if Agree(x') {
      forall k | k in x.byKey && k != op.key ensures x.byKey[k].id != op.id {
        assert k in x'.byKey && Primary(x', x'.byKey[k]);
      }
      forall t | t in x.byTask && t != op.taskId ensures x.byTask[t].id != op.id {
        assert t in x'.byTask && Primary(x', x'.byTask[t]);
      }
    }
  }

  /** A new id, or a change that keeps key and task of a stored operation, leaves nothing stale. */
  lemma UpdatesAreDetached(x: Indexes, op: Op)
    requires Agree(x)
    requires op.id in x.byId ==> op.key == x.byId[op.id].key && op.taskId == x.byId[op.id].taskId
    ensures Detached(x, op)
  {
    forall k | k in x.byKey && k != op.key ensures x.byKey[k].id != op.id {
      assert Primary(x, x.byKey[k]);
    }
    forall t | t in x.byTask && t != op.taskId ensures x.byTask[t].id != op.id {
      assert Primary(x, x.byTask[t]);
    }
  }

  /** `findOpenOperationForTask`: an open operation older than five minutes is failed instead. */
  function FindOpen(x: Indexes, taskId: string, now: int): (Option<Op>, Indexes) {
    if taskId in x.byTask && x.byTask[taskId].IsOpen() then
      if now - x.byTask[taskId].started > EXPIRY_MS
      then (None, Save(x, x.byTask[taskId].(status := OpFailed)))
      else (Some(x.byTask[taskId]), x)
    else (None, x)
  }

  /** A text field of a request; an empty one counts as missing. */
  type Given = s: string | s != "" witness "-"

  datatype ClaimRequest = ClaimRequest(
    agentId: string, agentPubkey: string, taskId: Option<Given>, idempotencyKey: Option<Given>, opId: string,
    now: int, paused: bool)

  /** The key a claim is remembered under. */
  function ClaimKey(r: ClaimRequest): string {
    if r.idempotencyKey.Some? then r.idempotencyKey.value
    else "claim_" + (if r.taskId.Some? then r.taskId.value else "any") + "_" + r.agentId
  }

  datatype ClaimOutcome =
    | BadRequest
    | Repeated(op: Op)
    | Attached(openOp: Option<Op>)
    | PausedBySupervisor
    | NoTasks
    | NewOperation(op: Op)

  /** The first open task, as an index. */
  function FirstOpen(tasks: seq<Task>): (i: Option<nat>)
    ensures i.Some? ==> i.value < |tasks| && tasks[i.value].status == Open
    ensures i.Some? ==> forall j :: 0 <= j < i.value ==> tasks[j].status != Open
    ensures i.None? ==> forall j :: 0 <= j < |tasks| ==> tasks[j].status != Open
  {
    if tasks == [] then None
    else if tasks[0].status == Open then Some(0)
    else
      var rest := FirstOpen(tasks[1..]);
      assert forall j :: 0 < j < |tasks| ==> tasks[j] == tasks[1..][j - 1];
      if rest.None? then None else Some(rest.value + 1)
  }

  function Target(tasks: seq<Task>, r: ClaimRequest): (i: Option<nat>)
    ensures i.Some? ==> i.value < |tasks|
  {
    if r.taskId.Some? then Find(tasks, r.taskId.value) else FirstOpen(tasks)
  }

  predicate HasReview(t: Task) {
    t.status == InReview || t.changeRequestId.Some?
  }

  /** `handleClaimTask` */
  function Claim(x: Indexes, tasks: seq<Task>, r: ClaimRequest): (ClaimOutcome, Indexes, seq<Task>) {
    if r.agentId == "" || r.agentPubkey == "" then (BadRequest, x, tasks)
    else if ClaimKey(r) in x.byKey then (Repeated(x.byKey[ClaimKey(r)]), x, tasks)
    else
      var i := Target(tasks, r);
      var (open, x') := if i.Some? then FindOpen(x, tasks[i.value].id, r.now) else (None, x);
      if i.Some? && (open.Some? || HasReview(tasks[i.value])) then (Attached(open), x', tasks)
      else if r.paused then (PausedBySupervisor, x', tasks)
      else if i.None? || tasks[i.value].status != Open then (NoTasks, x', tasks)
      else
        var op := Op(r.opId, ClaimKey(r), tasks[i.value].id, r.agentId, Accepted, r.now);
        (NewOperation(op), Save(x', op),
          tasks[i.value := tasks[i.value].(status := Claimed, claimedBy := Some(r.agentId))])
  }

  datatype UpdateRequest = UpdateRequest(
    opId: string, key: Option<Given>, taskId: Option<Given>, status: Option<OpStatus>, agentId: Option<Given>,
    now: int, generatedKey: string)

  /** The record an update writes: a stored one changed, or a new one. */
  function Updated(x: Indexes, u: UpdateRequest): Op {
    var op := if u.opId in x.byId then x.byId[u.opId]
              else Op(u.opId, if u.key.Some? then u.key.value else u.generatedKey,
                      if u.taskId.Some? then u.taskId.value else "unknown", "", Accepted, u.now);
    var op1 := if u.status.Some? then op.(status := u.status.value) else op;
    if u.agentId.Some? then op1.(agentId := u.agentId.value) else op1
  }

  /** `handleUpdateOperation` */
  function Update(x: Indexes, u: UpdateRequest): Indexes {
    if u.opId == "" then x else Save(x, Updated(x, u))
  }

  datatype OpEvent = ClaimEvent(claim: ClaimRequest) | UpdateEvent(update: UpdateRequest)

  function Step(x: Indexes, tasks: seq<Task>, e: OpEvent): (Indexes, seq<Task>) {
    match e
    case ClaimEvent(r) => (Claim(x, tasks, r).1, Claim(x, tasks, r).2)
    case UpdateEvent(u) => (Update(x, u), tasks)
  }

  /** Claims bring operation ids not used before. */
  predicate FreshId(x: Indexes, e: OpEvent) {
    e.ClaimEvent? ==> e.claim.opId !in x.byId
  }

  lemma FindOpenAgrees(x: Indexes, taskId: string, now: int)
    requires Agree(x)
    ensures Agree(FindOpen(x, taskId, now).1) && FindOpen(x, taskId, now).1.byId.Keys == x.byId.Keys
  {
    if taskId in x.byTask {
      var op := x.byTask[taskId].(status := OpFailed);
      assert Primary(x, x.byTask[taskId]);
      UpdatesAreDetached(x, op);
      SaveAgreesIff(x, op);
    }
  }

  /** With fresh claim ids every step keeps the three indexes in agreement. */
  lemma StepKeepsAgreement(x: Indexes, tasks: seq<Task>, e: OpEvent)
    requires Agree(x) && FreshId(x, e)
    ensures Agree(Step(x, tasks, e).0)
  {
    match e
    case ClaimEvent(r) =>
      var i := Target(tasks, r);
      if i.Some? {
        FindOpenAgrees(x, tasks[i.value].id, r.now);
        var x' := FindOpen(x, tasks[i.value].id, r.now).1;
        var op := Op(r.opId, ClaimKey(r), tasks[i.value].id, r.agentId, Accepted, r.now);
        UpdatesAreDetached(x', op);
        SaveAgreesIff(x', op);
      }
    case UpdateEvent(u) =>
      UpdatesAreDetached(x, Updated(x, u));
      SaveAgreesIff(x, Updated(x, u));
  }

  /** Without fresh ids: a claim that goes through keeps the agreement exactly when, after a stale
      operation of its task is expired, no entry of another key or task carries the claim's id. */
  lemma ClaimAgreesIff(x: Indexes, tasks: seq<Task>, r: ClaimRequest)
    requires Agree(x) && Claim(x, tasks, r).0.NewOperation?
    ensures var task := tasks[Target(tasks, r).value].id;
            var x' := FindOpen(x, task, r.now).1;
            Agree(Claim(x, tasks, r).1) <==>
              && (forall k :: k in x'.byKey && k != ClaimKey(r) ==> x'.byKey[k].id != r.opId)
              && (forall t :: t in x'.byTask && t != task ==> x'.byTask[t].id != r.opId)
  {
    var op := Claim(x, tasks, r).0.op;
    FindOpenAgrees(x, op.taskId, r.now);
    SaveAgreesIff(FindOpen(x, op.taskId, r.now).1, op);
  }

  /** The task's indexed operation is open and at most five minutes old. */
  predicate IsLive(x: Indexes, taskId: string, now: int) {
    taskId in x.byTask && x.byTask[taskId].IsOpen() && now - x.byTask[taskId].started <= EXPIRY_MS
  }

  /** A claim makes a new operation exactly when its key is new, claiming is not paused, and its
      target is open, has no review, and no live operation; the target is then claimed, and the
      operation live and indexed. Otherwise no task changes and no operation is added. */
  lemma ClaimExactly(x: Indexes, tasks: seq<Task>, r: ClaimRequest)
    requires Agree(x) && r.agentId != "" && r.agentPubkey != ""
    ensures var (outcome, x', tasks') := Claim(x, tasks, r);
            var i := Target(tasks, r);
            && (outcome.NewOperation? <==>
                  && ClaimKey(r) !in x.byKey && !r.paused && i.Some?
                  && tasks[i.value].status == Open && tasks[i.value].changeRequestId.None?
                  && !IsLive(x, tasks[i.value].id, r.now))
            && (outcome.NewOperation? ==>
                  && tasks'[i.value].status == Claimed && tasks'[i.value].claimedBy == Some(r.agentId)
                  && IsLive(x', tasks[i.value].id, r.now) && x'.byTask[tasks[i.value].id].id == r.opId)
            && (!outcome.NewOperation? ==> tasks' == tasks && x'.byId.Keys == x.byId.Keys)
  {
    var i := Target(tasks, r);
    if i.Some? { FindOpenAgrees(x, tasks[i.value].id, r.now); }
  }

  // ---------------------------------------------------------------------------------------
  // One open operation per task
  // ---------------------------------------------------------------------------------------

  predicate OpenTogether(a: Op, b: Op) {
    a.IsOpen() && b.IsOpen() && a.taskId == b.taskId
  }

  /** No task has two open operations. */
  ghost predicate OneOpen(x: Indexes) {
    forall i, j :: i in x.byId && j in x.byId && OpenTogether(x.byId[i], x.byId[j]) ==> i == j
  }

  /** Another operation of the task of `op` is open. */
  ghost predicate HasOpenRival(x: Indexes, op: Op) {
    exists i :: i in x.byId && i != op.id && x.byId[i].IsOpen() && x.byId[i].taskId == op.taskId
  }

  /** Saving leaves two operations of a task open exactly if the saved one is open and has a rival. */
  lemma SaveKeepsOneOpenIff(x: Indexes, op: Op)
    requires Agree(x) && OneOpen(x)
    ensures OneOpen(Save(x, op)) <==> !(op.IsOpen() && HasOpenRival(x, op))
  {
    var x' := Save(x, op);
    if op.IsOpen() && HasOpenRival(x, op) {
      var i :| i in x.byId && i != op.id && x.byId[i].IsOpen() && x.byId[i].taskId == op.taskId;
      assert OpenTogether(x'.byId[i], x'.byId[op.id]);
    } else {
      forall i, j | i in x'.byId && j in x'.byId && OpenTogether(x'.byId[i], x'.byId[j]) ensures i == j {
        if i != op.id && j != op.id { assert OpenTogether(x.byId[i], x.byId[j]); }
      }
    }
  }

  /** An update leaves two operations of a task open exactly if it leaves its own open and another
      one of that task is. */
  lemma UpdateKeepsOneOpenIff(x: Indexes, u: UpdateRequest)
    requires Agree(x) && OneOpen(x)
    ensures OneOpen(Update(x, u)) <==> u.opId == "" || !Updated(x, u).IsOpen() || !HasOpenRival(x, Updated(x, u))
  {
    SaveKeepsOneOpenIff(x, Updated(x, u));
  }

  ghost predicate IsIndexed(x: Indexes, op: Op) {
    op.taskId in x.byTask && x.byTask[op.taskId].id == op.id
  }

  /** An open operation of the task that its index entry is not about. */
  ghost predicate HasHiddenOpen(x: Indexes, taskId: string) {
    exists i :: i in x.byId && x.byId[i].IsOpen() && x.byId[i].taskId == taskId && !IsIndexed(x, x.byId[i])
  }

  /** Expiring a stale operation closes the indexed one, and no other. */
  lemma FindOpenHides(x: Indexes, taskId: string, now: int)
    requires Agree(x) && OneOpen(x)
    ensures OneOpen(FindOpen(x, taskId, now).1)
    ensures forall i :: i in x.byId ==> i in FindOpen(x, taskId, now).1.byId
    ensures forall i :: i in x.byId && !(taskId in x.byTask && x.byTask[taskId].id == i) ==>
              FindOpen(x, taskId, now).1.byId[i] == x.byId[i]
    ensures FindOpen(x, taskId, now).0.None? && taskId in x.byTask ==>
              !FindOpen(x, taskId, now).1.byId[x.byTask[taskId].id].IsOpen()
  {
    if taskId in x.byTask {
      assert Primary(x, x.byTask[taskId]);
      SaveKeepsOneOpenIff(x, x.byTask[taskId].(status := OpFailed));
    }
  }

  lemma RivalsAreHidden(x: Indexes, task: string, now: int, op: Op)
    requires Agree(x) && OneOpen(x) && op.taskId == task && op.id !in x.byId && FindOpen(x, task, now).0.None?
    ensures HasOpenRival(FindOpen(x, task, now).1, op) <==> HasHiddenOpen(x, task)
  {
    var x' := FindOpen(x, task, now).1;
    FindOpenAgrees(x, task, now);
    FindOpenHides(x, task, now);
    hide FindOpen;
    if HasHiddenOpen(x, task) {
      var i :| i in x.byId && x.byId[i].IsOpen() && x.byId[i].taskId == task && !IsIndexed(x, x.byId[i]);
      assert x'.byId[i] == x.byId[i] && i != op.id;
    }
    if HasOpenRival(x', op) {
      var i :| i in x'.byId && i != op.id && x'.byId[i].IsOpen() && x'.byId[i].taskId == task;
      assert i in x.byId && x'.byId[i] == x.byId[i] && !IsIndexed(x, x.byId[i]);
    }
  }

  /** A claim with a fresh id leaves two operations of a task open exactly if it goes through and
      the task has an open operation that its index entry does not show. */
  lemma ClaimKeepsOneOpenIff(x: Indexes, tasks: seq<Task>, r: ClaimRequest)
    requires Agree(x) && OneOpen(x) && r.opId !in x.byId
    ensures OneOpen(Claim(x, tasks, r).1) <==>
              !(Claim(x, tasks, r).0.NewOperation? && HasHiddenOpen(x, tasks[Target(tasks, r).value].id))
  {
    var i := Target(tasks, r);
    if i.Some? {
      var task := tasks[i.value].id;
      FindOpenAgrees(x, task, r.now);
      FindOpenHides(x, task, r.now);
      if Claim(x, tasks, r).0.NewOperation? {
        var x' := FindOpen(x, task, r.now).1;
        var op := Op(r.opId, ClaimKey(r), task, r.agentId, Accepted, r.now);
        SaveKeepsOneOpenIff(x', op);
        RivalsAreHidden(x, task, r.now, op);
      }
    }
  }

  /** What leaves no task with two open operations. */
  ghost predicate OpensNoSecond(x: Indexes, tasks: seq<Task>, e: OpEvent) {
    match e
    case ClaimEvent(r) => !(Claim(x, tasks, r).0.NewOperation? && HasHiddenOpen(x, tasks[Target(tasks, r).value].id))
    case UpdateEvent(u) => u.opId == "" || !Updated(x, u).IsOpen() || !HasOpenRival(x, Updated(x, u))
  }

  lemma StepKeepsOneOpenIff(x: Indexes, tasks: seq<Task>, e: OpEvent)
    requires Agree(x) && OneOpen(x) && FreshId(x, e)
    ensures OneOpen(Step(x, tasks, e).0) <==> OpensNoSecond(x, tasks, e)
  {
    match e
    case ClaimEvent(r) => ClaimKeepsOneOpenIff(x, tasks, r);
    case UpdateEvent(u) => UpdateKeepsOneOpenIff(x, u);
  }

  // ---------------------------------------------------------------------------------------
  // Superseded operations
  // ---------------------------------------------------------------------------------------

  /** Every open operation is the one its task is indexed with. */
  ghost predicate OpenAreIndexed(x: Indexes) {
    forall i :: i in x.byId && x.byId[i].IsOpen() ==> IsIndexed(x, x.byId[i])
  }

  /** Then no task has two. */
  lemma IndexedMeansOneOpen(x: Indexes)
    requires Agree(x) && OpenAreIndexed(x)
    ensures OneOpen(x)
  {
    forall i, j | i in x.byId && j in x.byId && OpenTogether(x.byId[i], x.byId[j]) ensures i == j {
      assert IsIndexed(x, x.byId[i]) && IsIndexed(x, x.byId[j]);
    }
  }

  /** Saving an operation takes an open one out of its index entry exactly if its task was indexed
      with another operation that is open. */
  lemma SaveKeepsIndexedIff(x: Indexes, op: Op)
    requires Agree(x) && OpenAreIndexed(x)
    ensures OpenAreIndexed(Save(x, op)) <==>
              !(op.taskId in x.byTask && x.byTask[op.taskId].id != op.id && x.byTask[op.taskId].IsOpen())
  {
    var x' := Save(x, op);
    if op.taskId in x.byTask && x.byTask[op.taskId].id != op.id && x.byTask[op.taskId].IsOpen() {
      var other := x.byTask[op.taskId];
      assert Primary(x, other);
      assert x'.byId[other.id] == other && !IsIndexed(x', other);
    } else {
      forall i | i in x'.byId && x'.byId[i].IsOpen() ensures IsIndexed(x', x'.byId[i]) {
        if i != op.id {
          assert IsIndexed(x, x.byId[i]);
          assert x.byId[i].taskId == op.taskId ==> Primary(x, x.byTask[op.taskId]);
        }
      }
    }
  }

  /** A claim with a fresh id leaves every open operation indexed. */
  lemma ClaimKeepsIndexed(x: Indexes, tasks: seq<Task>, r: ClaimRequest)
    requires Agree(x) && OpenAreIndexed(x) && r.opId !in x.byId
    ensures OpenAreIndexed(Claim(x, tasks, r).1)
  {
    var i := Target(tasks, r);
    if i.Some? {
      var task := tasks[i.value].id;
      FindOpenAgrees(x, task, r.now);
      if task in x.byTask {
        assert Primary(x, x.byTask[task]);
        SaveKeepsIndexedIff(x, x.byTask[task].(status := OpFailed));
      }
      var x' := FindOpen(x, task, r.now).1;
      SaveKeepsIndexedIff(x', Op(r.opId, ClaimKey(r), task, r.agentId, Accepted, r.now));
    }
  }

  /** The update is of the operation its task is indexed with, or that one is closed. */
  ghost predicate IsCurrent(x: Indexes, u: UpdateRequest) {
    var task := Updated(x, u).taskId;
    u.opId == "" || task !in x.byTask || x.byTask[task].id == u.opId || !x.byTask[task].IsOpen()
  }

  /** An update takes an open operation out of its index entry exactly if it is of one that this
      open operation has superseded. */
  lemma UpdateKeepsIndexedIff(x: Indexes, u: UpdateRequest)
    requires Agree(x) && OpenAreIndexed(x)
    ensures OpenAreIndexed(Update(x, u)) <==> IsCurrent(x, u)
  {
    SaveKeepsIndexedIff(x, Updated(x, u));
  }

  /** While open operations are indexed, an update leaves two of a task open exactly if it is of a
      superseded one and leaves it open. */
  lemma SupersededUpdateIff(x: Indexes, u: UpdateRequest)
    requires Agree(x) && OpenAreIndexed(x)
    ensures OneOpen(Update(x, u)) <==> IsCurrent(x, u) || !Updated(x, u).IsOpen()
  {
    var op := Updated(x, u);
    IndexedMeansOneOpen(x);
    UpdateKeepsOneOpenIff(x, u);
    if !IsCurrent(x, u) {
      assert Primary(x, x.byTask[op.taskId]);
    }
    forall i | i in x.byId && i != op.id && x.byId[i].IsOpen() && x.byId[i].taskId == op.taskId
      ensures u.opId == "" || !IsCurrent(x, u)
    {
      assert IsIndexed(x, x.byId[i]) && Primary(x, x.byTask[op.taskId]);
    }
  }

  predicate IsClaimOf(r: ClaimRequest, taskId: string) {
    r.agentId != "" && r.agentPubkey != "" && r.taskId == Some(taskId) && !r.paused
  }

  lemma TargetOfOne(task: Task, r: ClaimRequest)
    requires r.taskId == Some(task.id)
    ensures Target([task], r) == Some(0)
  {
  }

  lemma TwoOperations(x: Indexes, a: Op, b: Op)
    requires a.id != b.id && a.key != b.key && a.taskId == b.taskId && !a.IsOpen()
    requires x.byId == map[a.id := a, b.id := b] && x.byTask == map[b.taskId := b]
    requires x.byKey == map[a.key := a, b.key := b]
    ensures Agree(x) && OpenAreIndexed(x) && OneOpen(x)
  {
    assert Primary(x, a) && Primary(x, b);
  }

  lemma HiddenByDone(x: Indexes, a: Op, b: Op, task: Task, r: ClaimRequest, done: UpdateRequest)
    requires Agree(x) && OneOpen(x) && OneOpen(Update(x, done)) && a.id != b.id && a.taskId == b.taskId == task.id
    requires b.IsOpen()
    requires x.byId == map[a.id := a, b.id := b] && x.byTask == map[task.id := b]
    requires x.byKey == map[a.key := a, b.key := b]
    requires done.opId == a.id != "" && done.status == Some(OpDone) && done.agentId.None?
    requires task.status == Open && task.changeRequestId.None? && IsClaimOf(r, task.id)
    requires ClaimKey(r) !in {a.key, b.key} && r.opId !in {a.id, b.id}
    ensures !OneOpen(Claim(Update(x, done), [task], r).1)
  {
    var x' := Update(x, done);
    hide ClaimKey;
    UpdatesAreDetached(x, Updated(x, done));
    SaveAgreesIff(x, Updated(x, done));
    TargetOfOne(task, r);
    hide Target, Agree, OneOpen;
    assert x'.byTask[task.id] == a.(status := OpDone) && x'.byId[b.id] == b;
    assert HasHiddenOpen(x', task.id) by { assert !IsIndexed(x', b); }
    assert Claim(x', [task], r).0.NewOperation?;
    ClaimKeepsOneOpenIff(x', [task], r);
  }

  /** A late report from a worker whose operation expired. From the empty store: a claim, the task
      opened again, a second claim after more than five minutes, then an update of the first
      operation. If it reports running, two operations of the task are open. If it reports done, one
      is, but hidden, and once the task is opened again a third claim opens a second. */
  lemma LateReport(task: Task, first: ClaimRequest, second: ClaimRequest, third: ClaimRequest, late: UpdateRequest)
    requires task.status == Open && task.changeRequestId.None?
    requires IsClaimOf(first, task.id) && IsClaimOf(second, task.id) && IsClaimOf(third, task.id)
    requires ClaimKey(first) != ClaimKey(second) && ClaimKey(first) != ClaimKey(third)
    requires ClaimKey(second) != ClaimKey(third)
    requires first.opId != second.opId && first.opId != third.opId && second.opId != third.opId
    requires second.now - first.now > 300000
    requires late.opId == first.opId != "" && late.agentId.None?
    ensures var x1 := Claim(EMPTY, [task], first).1;
            var x2 := Claim(x1, [task], second).1;
            var running, done := Update(x2, late.(status := Some(Running))), Update(x2, late.(status := Some(OpDone)));
            && Agree(x2) && OneOpen(x2) && !OneOpen(running)
            && OneOpen(done) && !OneOpen(Claim(done, [task], third).1)
  {
    var x1 := Claim(EMPTY, [task], first).1;
    var a := Op(first.opId, ClaimKey(first), task.id, first.agentId, Accepted, first.now);
    var b := Op(second.opId, ClaimKey(second), task.id, second.agentId, Accepted, second.now);
    TargetOfOne(task, first);
    TargetOfOne(task, second);
    TargetOfOne(task, third);
    hide ClaimKey, Target;
    assert x1 == Save(EMPTY, a);
    var x2 := Claim(x1, [task], second).1;
    assert x2 == Save(Save(x1, a.(status := OpFailed)), b);
    assert x2.byId == map[a.id := a.(status := OpFailed), b.id := b];
    assert x2.byTask == map[task.id := b];
    hide Claim;
    TwoOperations(x2, a.(status := OpFailed), b);
    var running, done := late.(status := Some(Running)), late.(status := Some(OpDone));
    assert Updated(x2, running).IsOpen() && !Updated(x2, done).IsOpen() && !IsCurrent(x2, running);
    SupersededUpdateIff(x2, running);
    SupersededUpdateIff(x2, done);
    HiddenByDone(x2, a.(status := OpFailed), b, task, third, done);
  }

  // ---------------------------------------------------------------------------------------
  // What the requests say
  // ---------------------------------------------------------------------------------------

  /** An operation is live while it is accepted or running and at most five minutes old; an older
      one that a claim comes across is failed. */
  lemma LiveMeans(x: Indexes, taskId: string, now: int)
    requires Agree(x)
    ensures IsLive(x, taskId, now) <==>
              taskId in x.byTask && x.byTask[taskId].status in {Accepted, Running}
                && now - x.byTask[taskId].started <= 300000
    ensures FindOpen(x, taskId, now).0 == if IsLive(x, taskId, now) then Some(x.byTask[taskId]) else None
    ensures var x' := FindOpen(x, taskId, now).1;
            if taskId in x.byTask && x.byTask[taskId].status in {Accepted, Running} && !IsLive(x, taskId, now)
            then x'.byTask[taskId] == x.byTask[taskId].(status := OpFailed)
              && x'.byId[x.byTask[taskId].id] == x'.byTask[taskId]
            else x' == x
  {
    assert taskId in x.byTask ==> (x.byTask[taskId].IsOpen() <==> x.byTask[taskId].status in {Accepted, Running});
  }

  /** Which answer a claim gets. Its task is the first of the id it names, or the first open one; a task
      in review or with a live operation is answered with that operation before the pause counts. */
  lemma ClaimAnswers(x: Indexes, tasks: seq<Task>, r: ClaimRequest)
    requires Agree(x)
    ensures var (outcome, x', _) := Claim(x, tasks, r);
            var i := Target(tasks, r);
            var asksAnew := r.agentId != "" && r.agentPubkey != "" && ClaimKey(r) !in x.byKey;
            var live := i.Some? && IsLive(x, tasks[i.value].id, r.now);
            var reviewed := i.Some? && (tasks[i.value].status == InReview || tasks[i.value].changeRequestId.Some?);
            && (outcome == BadRequest <==> r.agentId == "" || r.agentPubkey == "")
            && (outcome.Repeated? <==> outcome != BadRequest && ClaimKey(r) in x.byKey)
            && (outcome.Attached? <==> asksAnew && (live || reviewed))
            && (outcome.Attached? ==> outcome.openOp == if live then Some(x.byTask[tasks[i.value].id]) else None)
            && (outcome == PausedBySupervisor <==> asksAnew && !live && !reviewed && r.paused)
            && (outcome == NoTasks <==>
                  asksAnew && !live && !reviewed && !r.paused && (i.None? || tasks[i.value].status != Open))
            && (outcome.NewOperation? ==>
                  && outcome.op == Op(r.opId, ClaimKey(r), tasks[i.value].id, r.agentId, Accepted, r.now)
                  && r.opId in x'.byId && x'.byId[r.opId] == outcome.op
                  && ClaimKey(r) in x'.byKey && x'.byKey[ClaimKey(r)] == outcome.op)
    ensures var i := Target(tasks, r);
            match r.taskId
            case Some(id) => i.Some? <==> exists j :: 0 <= j < |tasks| && tasks[j].id == id
            case None => i.Some? <==> exists j :: 0 <= j < |tasks| && tasks[j].status == Open
    ensures var i := Target(tasks, r);
            i.Some? ==>
              forall j :: 0 <= j < i.value ==>
                match r.taskId case Some(id) => tasks[j].id != id case None => tasks[j].status != Open
  {
    var i := Target(tasks, r);
    if i.Some? { FindOpenAgrees(x, tasks[i.value].id, r.now); LiveMeans(x, tasks[i.value].id, r.now); }
    hide ClaimKey, FindOpen, Agree;
  }

  /** What an update writes: the stored operation with the status and the agent that are given, or a
      new one with what is given and defaults for the rest. */
  lemma UpdateMeans(x: Indexes, u: UpdateRequest)
    requires Agree(x) && u.opId != ""
    ensures var x' := Update(x, u);
            && u.opId in x'.byId && x'.byId.Keys == x.byId.Keys + {u.opId}
            && (forall i :: i in x.byId && i != u.opId ==> x'.byId[i] == x.byId[i])
            && (u.status.Some? ==> x'.byId[u.opId].status == u.status.value)
            && (u.agentId.Some? ==> x'.byId[u.opId].agentId == u.agentId.value)
    ensures u.opId in x.byId ==>
              var (op, op') := (x.byId[u.opId], Update(x, u).byId[u.opId]);
              && op'.key == op.key && op'.taskId == op.taskId && op'.started == op.started
              && (u.status.None? ==> op'.status == op.status) && (u.agentId.None? ==> op'.agentId == op.agentId)
    ensures u.opId !in x.byId ==>
              var op' := Update(x, u).byId[u.opId];
              && op'.id == u.opId && op'.started == u.now && (u.status.None? ==> op'.status == Accepted)
              && op'.key == (if u.key.Some? then u.key.value else u.generatedKey)
              && op'.taskId == (if u.taskId.Some? then u.taskId.value else "unknown")
  {
  }

  /** With a key of its own a claim is a repetition exactly if that key is stored. */
  lemma ExplicitKeyDecides(x: Indexes, tasks: seq<Task>, r: ClaimRequest, key: string)
    requires r.agentId != "" && r.agentPubkey != "" && r.idempotencyKey == Some(key)
    ensures Claim(x, tasks, r).0.Repeated? <==> key in x.byKey
    ensures key in x.byKey ==> Claim(x, tasks, r) == (Repeated(x.byKey[key]), x, tasks)
  {
  }

  /** The same task again, by the same agent and without a key, is a repetition. */
  lemma SameTaskIsRepeated(x: Indexes, tasks: seq<Task>, first: ClaimRequest, second: ClaimRequest)
    requires first.idempotencyKey.None? && second.idempotencyKey.None? && first.agentId == second.agentId
    requires first.taskId == second.taskId && second.agentPubkey != "" && Claim(x, tasks, first).0.NewOperation?
    ensures var (outcome, x', tasks') := Claim(x, tasks, first);
            Claim(x', tasks', second) == (Repeated(outcome.op), x', tasks')
  {
  }

  /** So is every further claim of no task in particular: an agent without keys gets one open task in
      this way, and then the same operation for ever, whatever else is open. */
  lemma AnyTaskIsGivenOnce(x: Indexes, tasks: seq<Task>, first: ClaimRequest, later: Indexes, laterTasks: seq<Task>,
      second: ClaimRequest)
    requires first.idempotencyKey.None? && first.taskId.None? && Claim(x, tasks, first).0.NewOperation?
    requires second.idempotencyKey.None? && second.taskId.None? && second.agentId == first.agentId
    requires second.agentPubkey != ""
    requires "claim_any_" + first.agentId in later.byKey
    ensures "claim_any_" + first.agentId in Claim(x, tasks, first).1.byKey
    ensures Claim(later, laterTasks, second) == (Repeated(later.byKey["claim_any_" + first.agentId]), later, laterTasks)
  {
    assert ClaimKey(first) == "claim_any_" + first.agentId == ClaimKey(second) by {
      assert "claim_" + "any" + "_" + first.agentId == "claim_any_" + first.agentId;
    }
    hide ClaimKey, Target;
  }

  /** Default keys of one agent tell its tasks apart. */
  lemma DefaultKeyTellsTask(a: string, b: string, agent: string)
    ensures "claim_" + a + "_" + agent == "claim_" + b + "_" + agent <==> a == b
  {
    var k, l := "claim_" + a + "_" + agent, "claim_" + b + "_" + agent;
    assert |k| == 7 + |a| + |agent| && |l| == 7 + |b| + |agent|;
    assert a == k[6..6 + |a|] && b == l[6..6 + |b|];
  }

  /** The key of every stored operation is known. */
  ghost predicate KeysAreKnown(x: Indexes) {
    forall i :: i in x.byId ==> x.byId[i].key in x.byKey
  }

  lemma SaveKeepsKeysKnown(x: Indexes, op: Op)
    requires KeysAreKnown(x)
    ensures KeysAreKnown(Save(x, op))
  {
  }

  lemma StepKeepsKeysKnown(x: Indexes, tasks: seq<Task>, e: OpEvent)
    requires Agree(x) && KeysAreKnown(x)
    ensures KeysAreKnown(Step(x, tasks, e).0)
  {
    match e
    case ClaimEvent(r) =>
      var i := Target(tasks, r);
      if i.Some? {
        var task := tasks[i.value].id;
        if task in x.byTask { SaveKeepsKeysKnown(x, x.byTask[task].(status := OpFailed)); }
        var x' := FindOpen(x, task, r.now).1;
        hide Save, Agree, ClaimKey, Target;
        SaveKeepsKeysKnown(x', Op(r.opId, ClaimKey(r), task, r.agentId, Accepted, r.now));
      }
    case UpdateEvent(u) => SaveKeepsKeysKnown(x, Updated(x, u));
  }

  lemma NewKeys(x: Indexes, tasks: seq<Task>, r: ClaimRequest)
    requires Agree(x) && KeysAreKnown(x) && Claim(x, tasks, r).0.NewOperation?
    ensures forall key :: key in Claim(x, tasks, r).1.byKey ==> key in x.byKey || key == ClaimKey(r)
  {
    hide ClaimKey;
    var t := tasks[Target(tasks, r).value].id;
    if t in x.byTask { assert Primary(x, x.byTask[t]); }
  }

  /** What a claim of one task leaves of the others. */
  lemma OthersStay(x: Indexes, tasks: seq<Task>, r: ClaimRequest, i: nat)
    requires Agree(x) && Claim(x, tasks, r).0.NewOperation? && r.taskId.Some?
    requires i < |tasks| && tasks[i].id != r.taskId.value && forall j :: 0 <= j < i ==> tasks[j].id != tasks[i].id
    ensures var (_, x', tasks') := Claim(x, tasks, r);
            && |tasks'| == |tasks| && tasks'[i] == tasks[i] && Find(tasks', tasks[i].id) == Some(i)
            && (tasks[i].id in x'.byTask <==> tasks[i].id in x.byTask)
            && (tasks[i].id in x.byTask ==> x'.byTask[tasks[i].id] == x.byTask[tasks[i].id])
  {
    hide ClaimKey;
    var tasks' := Claim(x, tasks, r).2;
    assert forall j :: 0 <= j < |tasks| ==> tasks'[j].id == tasks[j].id;
    var found := Find(tasks', tasks[i].id);
    if r.taskId.value in x.byTask { assert Primary(x, x.byTask[r.taskId.value]); }
  }

  lemma GoesThrough(x: Indexes, tasks: seq<Task>, r: ClaimRequest, i: nat)
    requires r.agentId != "" && r.agentPubkey != "" && !r.paused && ClaimKey(r) !in x.byKey
    requires Target(tasks, r) == Some(i)
    requires i < |tasks| && tasks[i].status == Open && tasks[i].changeRequestId.None? && !IsLive(x, tasks[i].id, r.now)
    ensures var (outcome, _, tasks') := Claim(x, tasks, r);
            outcome.NewOperation? && outcome.op.taskId == tasks[i].id && tasks'[i].status == Claimed
  {
    hide ClaimKey, Target;
  }

  /** Whoever claims one task without a key can claim another one without a key: if it is open, has no
      review and no live operation, and its own default key is not stored, the claim goes through. */
  lemma AnotherTaskCanBeClaimed(x: Indexes, tasks: seq<Task>, first: ClaimRequest, second: ClaimRequest, i: nat)
    requires Agree(x) && KeysAreKnown(x) && first.idempotencyKey.None? && second.idempotencyKey.None?
    requires first.agentId == second.agentId && second.agentPubkey != "" && !second.paused
    requires first.taskId.Some? && second.taskId.Some? && first.taskId != second.taskId
    requires Claim(x, tasks, first).0.NewOperation?
    requires i < |tasks| && tasks[i].id == second.taskId.value && forall j :: 0 <= j < i ==> tasks[j].id != tasks[i].id
    requires tasks[i].status == Open && tasks[i].changeRequestId.None? && !IsLive(x, tasks[i].id, second.now)
    requires "claim_" + second.taskId.value + "_" + second.agentId !in x.byKey
    ensures var (_, x', tasks') := Claim(x, tasks, first);
            var (outcome, x'', tasks'') := Claim(x', tasks', second);
            outcome.NewOperation? && outcome.op.taskId == second.taskId.value && tasks''[i].status == Claimed
  {
    var (_, x', tasks') := Claim(x, tasks, first);
    NewKeys(x, tasks, first);
    OthersStay(x, tasks, first, i);
    DefaultKeyTellsTask(first.taskId.value, second.taskId.value, first.agentId);
    assert ClaimKey(second) !in x'.byKey;
    assert Target(tasks', second) == Some(i);
    assert !IsLive(x', tasks[i].id, second.now);
    GoesThrough(x', tasks', second, i);
  }

  lemma BeforeSuffix(s: string, suffix: string, j: nat)
    requires |suffix| <= |s| && s[|s| - |suffix|..] == suffix && '_' !in suffix && j < |s| && s[j] == '_'
    ensures j < |s| - |suffix|
  {
    var start := |s| - |suffix|;
    assert forall i :: start <= i < |s| ==> s[i] == suffix[i - start] && suffix[i - start] in suffix;
  }

  /** Agents without an underscore in their id never share a default key. */
  lemma DefaultKeysDiffer(a: string, agentA: string, b: string, agentB: string)
    requires '_' !in agentA && '_' !in agentB
    ensures "claim_" + a + "_" + agentA == "claim_" + b + "_" + agentB <==> a == b && agentA == agentB
  {
    var k, l := "claim_" + a + "_" + agentA, "claim_" + b + "_" + agentB;
    assert k[|k| - |agentA|..] == agentA && k[|k| - 1 - |agentA|] == '_';
    assert l[|l| - |agentB|..] == agentB && l[|l| - 1 - |agentB|] == '_';
    if k == l {
      BeforeSuffix(k, agentB, |k| - 1 - |agentA|);
      BeforeSuffix(l, agentA, |l| - 1 - |agentB|);
      DefaultKeyTellsTask(a, b, agentA);
    }
  }

  lemma SharedDefaultKey(a: string, agentA: string, b: string, agentB: string)
    ensures "claim_" + a + "_" + agentA == "claim_" + b + "_" + agentB <==> a + "_" + agentA == b + "_" + agentB
    ensures "claim_" + "x_y" + "_" + "z" == "claim_" + "x" + "_" + "y_z"
  {
    var k, l := "claim_" + a + "_" + agentA, "claim_" + b + "_" + agentB;
    assert k == "claim_" + (a + "_" + agentA) && l == "claim_" + (b + "_" + agentB);
    assert k[6..] == a + "_" + agentA && l[6..] == b + "_" + agentB;
  }

  /** With one, agents can: after "z" has claimed "x_y", "y_z" claims "x" and is answered with the
      operation of "z". Of two claims of named tasks without keys, the second, if not known before,
      repeats the first exactly if task and agent, joined by an underscore, spell the same. */
  lemma SharedKeyRepeatsIff(x: Indexes, tasks: seq<Task>, first: ClaimRequest, second: ClaimRequest)
    requires Agree(x) && KeysAreKnown(x) && first.idempotencyKey.None? && second.idempotencyKey.None?
    requires first.taskId.Some? && second.taskId.Some? && second.agentId != "" && second.agentPubkey != ""
    requires Claim(x, tasks, first).0.NewOperation?
    requires "claim_" + second.taskId.value + "_" + second.agentId !in x.byKey
    ensures var (outcome, x', tasks') := Claim(x, tasks, first);
            && (Claim(x', tasks', second).0.Repeated? <==>
                  first.taskId.value + "_" + first.agentId == second.taskId.value + "_" + second.agentId)
            && (Claim(x', tasks', second).0.Repeated? ==>
                  Claim(x', tasks', second) == (Repeated(outcome.op), x', tasks')
                  && outcome.op.taskId == first.taskId.value && outcome.op.agentId == first.agentId)
  {
    SharedDefaultKey(first.taskId.value, first.agentId, second.taskId.value, second.agentId);
    NewKeys(x, tasks, first);
    hide FindOpen, Agree, KeysAreKnown;
  }

  // ---------------------------------------------------------------------------------------
  // Idempotency keys
  // ---------------------------------------------------------------------------------------

  /** Idempotency keys are never forgotten. */
  lemma KeysAreKept(x: Indexes, tasks: seq<Task>, e: OpEvent)
    ensures x.byKey.Keys <= Step(x, tasks, e).0.byKey.Keys
  {
  }

  /** A claim under a known key changes nothing and answers with the operation stored under it. */
  lemma KnownKeyChangesNothing(x: Indexes, tasks: seq<Task>, r: ClaimRequest)
    requires ClaimKey(r) in x.byKey && r.agentId != "" && r.agentPubkey != ""
    ensures Claim(x, tasks, r) == (Repeated(x.byKey[ClaimKey(r)]), x, tasks)
  {
  }

  /** A claim that goes through is remembered. */
  lemma ClaimIsRemembered(x: Indexes, tasks: seq<Task>, r: ClaimRequest)
    requires Claim(x, tasks, r).0.NewOperation?
    ensures ClaimKey(r) in Claim(x, tasks, r).1.byKey
  {
  }
}
