/**
 The spending ledger of `RepoCoordinator`: a daily total under a cap, a queue of deferred actions,
 and the tasks those actions belong to. Money is a real number of dollars; the day is an input.
 */
module Ledger {
  import opened Prelude
  import opened Tasks

  datatype ActionKind = Free | Llm | Sandbox | Browser | R2

  datatype LedgerRecord = LedgerRecord(taskId: string, agentId: string, kind: ActionKind, units: real, cost: real)

  datatype DeferredAction = DeferredAction(taskId: string, agentId: string, kind: ActionKind, units: real, cost: real)

  /** The ledger's storage keys; a key never written is `None`. */
  datatype Ledger = Ledger(
    cap: Option<real>, lastResetDay: Option<int>, spent: real, queue: seq<DeferredAction>, entries: seq<LedgerRecord>)
  {
    function Cap(): real {
      if cap.Some? then cap.value else 1.0
    }
  }

  const EMPTY: Ledger := Ledger(None, None, 0.0, [], [])
  const MAX_ENTRIES: nat := 200

  function CalculateCost(kind: ActionKind, units: real): real {
    match kind
    case Free => 0.0
    case Llm => units * 0.000002
    case Sandbox => units * 0.0001
    case Browser => units * 0.0002
    case R2 => units * 0.00005
  }

  /** The documented rates: two dollars for a million tokens, 0.6 cents for a minute of sandbox, 1.2
      cents for a minute of browser, five cents for a thousand storage operations, nothing for what
      is free; and in between in proportion. */
  lemma Rates(kind: ActionKind, a: real, b: real)
    ensures CalculateCost(Llm, 1000000.0) == 2.0 && CalculateCost(Sandbox, 60.0) == 0.006
    ensures CalculateCost(Browser, 60.0) == 0.012 && CalculateCost(R2, 1000.0) == 0.05
    ensures CalculateCost(Free, a) == 0.0
    ensures CalculateCost(kind, a + b) == CalculateCost(kind, a) + CalculateCost(kind, b)
    ensures a < b && kind != Free ==> CalculateCost(kind, a) < CalculateCost(kind, b)
  {
  }

  // ---------------------------------------------------------------------------------------
  // Steps
  // ---------------------------------------------------------------------------------------

  function ReopenOne(tasks: seq<Task>, id: string): seq<Task> {
    UpdateFirst(tasks, id, (t: Task) => if t.status == DeferredBudget then Reopened(t) else t)
  }

  /** Every queued task that is still deferred, found by id, is opened again. */
  function Reopen(tasks: seq<Task>, queue: seq<DeferredAction>): (r: seq<Task>)
    ensures SameIds(tasks, r)
    decreases |queue|
  {
    if queue == [] then tasks
    else
      Reopen(ReopenOne(tasks, queue[0].taskId), queue[1..])
  }

  function Drain(l: Ledger, tasks: seq<Task>): (Ledger, seq<Task>) {
    if |l.queue| > 0 then (l.(queue := []), Reopen(tasks, l.queue)) else (l, tasks)
  }

  function ResetsOn(l: Ledger, day: int): bool {
    l.lastResetDay.Some? && l.lastResetDay.value != 0 && day > l.lastResetDay.value
  }

  /** `checkDailyReset` */
  function DailyReset(l: Ledger, tasks: seq<Task>, day: int): (Ledger, seq<Task>) {
    if ResetsOn(l, day) then Drain(l.(lastResetDay := Some(day), spent := 0.0), tasks) else (l, tasks)
  }

  function Fits(l: Ledger, kind: ActionKind, units: real): bool {
    l.spent + CalculateCost(kind, units) <= l.Cap()
  }

  /** `checkSpend`: whether the action would be allowed. */
  function CheckSpend(l: Ledger, tasks: seq<Task>, kind: ActionKind, units: real, day: int): (bool, Ledger, seq<Task>) {
    var (l', tasks') := DailyReset(l, tasks, day);
    (kind == Free || Fits(l', kind, units), l', tasks')
  }

  function LastOf<T>(s: seq<T>, n: nat): seq<T> {
    if |s| <= n then s else s[|s| - n..]
  }

  /** Appends a record; the oldest one goes when there are too many. */
  function PushEntry(entries: seq<LedgerRecord>, r: LedgerRecord): seq<LedgerRecord> {
    var longer := entries + [r];
    if |longer| > MAX_ENTRIES then longer[1..] else longer
  }

  /** `recordLedgerAction`: executed and counted, or deferred together with its task. */
  function RecordAction(l: Ledger, tasks: seq<Task>, taskId: string, agentId: string, kind: ActionKind, units: real,
      day: int)
    : (bool, Ledger, seq<Task>)
  {
    var (l0, tasks0) := DailyReset(l, tasks, day);
    var cost := CalculateCost(kind, units);
    if kind == Free || Fits(l0, kind, units) then
      (true,
       l0.(spent := if kind == Free then l0.spent else l0.spent + cost,
           entries := PushEntry(l0.entries, LedgerRecord(taskId, agentId, kind, units, cost))),
       tasks0)
    else
      (false,
       l0.(queue := l0.queue + [DeferredAction(taskId, agentId, kind, units, cost)]),
       WithStatus(tasks0, taskId, DeferredBudget))
  }

  /** `resetBudgetToday` */
  function ResetBudget(l: Ledger, tasks: seq<Task>): (Ledger, seq<Task>) {
    Drain(l.(spent := 0.0), tasks)
  }

  function SetCap(l: Ledger, cap: real): Ledger {
    l.(cap := Some(cap))
  }

  // ---------------------------------------------------------------------------------------
  // Checking and recording agree
  // ---------------------------------------------------------------------------------------

  /** `checkSpend` allows exactly the actions `recordLedgerAction` would execute at once. */
  lemma CheckPredictsRecord(l: Ledger, tasks: seq<Task>, taskId: string, agentId: string, kind: ActionKind, units: real,
      day: int)
    ensures CheckSpend(l, tasks, kind, units, day).0 == RecordAction(l, tasks, taskId, agentId, kind, units, day).0
    ensures var (_, l', tasks') := CheckSpend(l, tasks, kind, units, day);
            RecordAction(l', tasks', taskId, agentId, kind, units, day)
              == RecordAction(l, tasks, taskId, agentId, kind, units, day)
  {
  }

  /** The daily reset happens exactly if the day of an earlier one is stored, is not zero, and lies
      before today; it then zeroes the total and stores today. */
  lemma ResetMeans(l: Ledger, tasks: seq<Task>, day: int)
    ensures var reset := l.lastResetDay.Some? && l.lastResetDay.value != 0 && l.lastResetDay.value < day;
            var (l', tasks') := DailyReset(l, tasks, day);
            if reset then l'.spent == 0.0 && l'.lastResetDay == Some(day) && l'.queue == [] && l'.cap == l.cap
                          && l'.entries == l.entries
            else l' == l && tasks' == tasks
  {
  }

  /** Recording, on a day without reset: executed exactly if it is free or fits the cap, one dollar if
      none was set. Executed, it is added to the total and to the entries; deferred, it joins the
      queue, and the first task of its id is deferred with it. */
  lemma RecordMeans(l: Ledger, tasks: seq<Task>, taskId: string, agentId: string, kind: ActionKind, units: real,
      day: int)
    requires l.lastResetDay.None?
    ensures var (executed, l', tasks') := RecordAction(l, tasks, taskId, agentId, kind, units, day);
            var cost, cap := CalculateCost(kind, units), if l.cap.Some? then l.cap.value else 1.0;
            && (executed <==> kind == Free || l.spent + cost <= cap)
            && (executed ==> l'.spent == (if kind == Free then l.spent else l.spent + cost)
                             && l'.queue == l.queue && tasks' == tasks && l'.entries != []
                             && l'.entries[|l'.entries| - 1] == LedgerRecord(taskId, agentId, kind, units, cost))
            && (!executed ==> l' == l.(queue := l.queue + [DeferredAction(taskId, agentId, kind, units, cost)])
                              && |tasks'| == |tasks|
                              && forall i :: 0 <= i < |tasks| ==>
                                   tasks'[i] == if tasks[i].id == taskId && IsFirst(tasks, i)
                                                then tasks[i].(status := DeferredBudget) else tasks[i])
  {
    hide CalculateCost, IsFirst;
  }

  // ---------------------------------------------------------------------------------------
  // Conservation, against the full history
  // ---------------------------------------------------------------------------------------

  function PaidCost(records: seq<LedgerRecord>): real {
    if records == [] then 0.0
    else PaidCost(records[..|records| - 1])
         + if records[|records| - 1].kind == Free then 0.0 else records[|records| - 1].cost
  }

  /** Everything ever executed, and how much of it came before the last reset. */
  datatype History = History(executed: seq<LedgerRecord>, mark: nat)

  ghost predicate Conserved(l: Ledger, h: History) {
    && h.mark <= |h.executed|
    && l.spent == PaidCost(h.executed[h.mark..])
    && l.entries == LastOf(h.executed, 200)
  }

  datatype LedgerEvent =
    | Check(kind: ActionKind, units: real, day: int)
    | Record(taskId: string, agentId: string, kind: ActionKind, units: real, day: int)
    | Status(day: int)
    | Reset
    | Configure(cap: real, day: int)

  function Step(l: Ledger, tasks: seq<Task>, e: LedgerEvent): (Ledger, seq<Task>) {
    match e
    case Check(kind, units, day) => (CheckSpend(l, tasks, kind, units, day).1, CheckSpend(l, tasks, kind, units, day).2)
    case Record(taskId, agentId, kind, units, day) =>
      var (_, l', tasks') := RecordAction(l, tasks, taskId, agentId, kind, units, day);
      (l', tasks')
    case Status(day) => DailyReset(l, tasks, day)
    case Reset => ResetBudget(l, tasks)
    case Configure(cap, day) => DailyReset(SetCap(l, cap), tasks, day)
  }

  function Resets(l: Ledger, e: LedgerEvent): bool {
    if e.Reset? then true else ResetsOn(l, e.day)
  }

  function Marked(h: History): History {
    h.(mark := |h.executed|)
  }

  /** What an outside observer writes down: resets, and the actions reported as executed. */
  function Observe(h: History, l: Ledger, tasks: seq<Task>, e: LedgerEvent): History {
    var h' := if Resets(l, e) then Marked(h) else h;
    if e.Record? && RecordAction(l, tasks, e.taskId, e.agentId, e.kind, e.units, e.day).0
    then
      var record := LedgerRecord(e.taskId, e.agentId, e.kind, e.units, CalculateCost(e.kind, e.units));
      h'.(executed := h'.executed + [record])
    else h'
  }

  lemma LastOfPush(h: seq<LedgerRecord>, r: LedgerRecord)
    ensures PushEntry(LastOf(h, MAX_ENTRIES), r) == LastOf(h + [r], MAX_ENTRIES)
  {
  }

  lemma ResetConserves(l: Ledger, tasks: seq<Task>, h: History, day: int)
    requires Conserved(l, h)
    ensures Conserved(DailyReset(l, tasks, day).0, if ResetsOn(l, day) then Marked(h) else h)
    ensures Conserved(ResetBudget(l, tasks).0, Marked(h))
  {
    hide Reopen;
    assert h.executed[|h.executed|..] == [];
  }

  lemma ExecuteConserves(l: Ledger, h: History, r: LedgerRecord)
    requires Conserved(l, h)
    ensures var spent := if r.kind == Free then l.spent else l.spent + r.cost;
            Conserved(l.(spent := spent, entries := PushEntry(l.entries, r)), h.(executed := h.executed + [r]))
  {
    LastOfPush(h.executed, r);
    var since := (h.executed + [r])[h.mark..];
    assert since == h.executed[h.mark..] + [r];
    assert since[..|since| - 1] == h.executed[h.mark..];
    hide PushEntry, LastOf;
  }

  /** Every step keeps the total equal to what was paid since the last reset, and the stored
      entries equal to the last two hundred of the full history. */
  lemma StepConserves(l: Ledger, tasks: seq<Task>, h: History, e: LedgerEvent)
    requires Conserved(l, h)
    ensures Conserved(Step(l, tasks, e).0, Observe(h, l, tasks, e))
  {
    var day := if e.Reset? then 0 else e.day;
    ResetConserves(l, tasks, h, day);
    hide DailyReset, ResetBudget, CalculateCost;
    if e.Configure? {
      assert Conserved(SetCap(l, e.cap), h);
      ResetConserves(SetCap(l, e.cap), tasks, h, day);
    } else if e.Record? {
      var l0 := DailyReset(l, tasks, day).0;
      ExecuteConserves(l0, if ResetsOn(l, day) then Marked(h) else h,
                       LedgerRecord(e.taskId, e.agentId, e.kind, e.units, CalculateCost(e.kind, e.units)));
      hide Conserved, PushEntry, LastOf;
    }
  }

  ghost predicate WithinCap(l: Ledger) {
    l.spent <= l.Cap()
  }

  /** The cap holds after a step exactly when what stays spent fits the cap then in force. Only
      lowering the cap can break it, or a reset under a negative cap. */
  lemma StepStaysWithinCapIff(l: Ledger, tasks: seq<Task>, e: LedgerEvent)
    requires WithinCap(l)
    ensures var carried := if Resets(l, e) then 0.0 else l.spent;
            var cap := if e.Configure? then e.cap else l.Cap();
            && (carried <= cap ==> WithinCap(Step(l, tasks, e).0))
            && ((e.Record? ==> e.units >= 0.0) && WithinCap(Step(l, tasks, e).0) ==> carried <= cap)
  {
  }

  // ---------------------------------------------------------------------------------------
  // The deferred queue and the deferred tasks
  // ---------------------------------------------------------------------------------------

  predicate IsQueued(queue: seq<DeferredAction>, id: string) {
    exists i :: 0 <= i < |queue| && queue[i].taskId == id
  }

  /** Every deferred task has an entry in the queue. */
  ghost predicate DeferredAreQueued(tasks: seq<Task>, queue: seq<DeferredAction>) {
    forall i :: 0 <= i < |tasks| && tasks[i].status == DeferredBudget ==> IsQueued(queue, tasks[i].id)
  }

  ghost predicate NoneDeferred(tasks: seq<Task>) {
    forall i :: 0 <= i < |tasks| ==> tasks[i].status != DeferredBudget
  }

  /** What a drain does to each task. */
  lemma {:induction false} ReopenExactly(tasks: seq<Task>, queue: seq<DeferredAction>)
    ensures forall i :: 0 <= i < |tasks| ==>
              Reopen(tasks, queue)[i]
              == if tasks[i].status == DeferredBudget && IsFirst(tasks, i) && IsQueued(queue, tasks[i].id)
                 then tasks[i].(status := Open, claimedBy := None) else tasks[i]
    decreases |queue|
  {
    if queue == [] {
    } else {
      var tasks1 := ReopenOne(tasks, queue[0].taskId);
      ReopenExactly(tasks1, queue[1..]);
      forall i | 0 <= i < |tasks|
        ensures IsFirst(tasks1, i) == IsFirst(tasks, i)
        ensures IsQueued(queue, tasks[i].id) <==> queue[0].taskId == tasks[i].id || IsQueued(queue[1..], tasks[i].id)
      {
        FindBySameIds(tasks, tasks1, tasks[i].id);
        if IsQueued(queue[1..], tasks[i].id) {
          var j :| 0 <= j < |queue[1..]| && queue[1..][j].taskId == tasks[i].id;
          assert queue[j + 1].taskId == tasks[i].id;
        }
        if IsQueued(queue, tasks[i].id) && queue[0].taskId != tasks[i].id {
          var j :| 0 <= j < |queue| && queue[j].taskId == tasks[i].id;
          assert queue[1..][j - 1].taskId == tasks[i].id;
        }
      }
    }
  }

  /** After a drain no task is left deferred exactly when every deferred task is queued and is the
      first of its id: with a repeated id, `find` reaches the other task. */
  lemma DrainLeavesNoneDeferredIff(l: Ledger, tasks: seq<Task>)
    ensures Drain(l, tasks).0.queue == []
    ensures NoneDeferred(Drain(l, tasks).1)
       <==> DeferredAreQueued(tasks, l.queue)
            && forall i :: 0 <= i < |tasks| && tasks[i].status == DeferredBudget ==> IsFirst(tasks, i)
  {
    ReopenExactly(tasks, l.queue);
    var after := Drain(l, tasks).1;
    if |l.queue| == 0 {
      assert after == tasks;
    } else {
      forall i | 0 <= i < |tasks|
        ensures after[i].status == DeferredBudget <==>
                tasks[i].status == DeferredBudget && !(IsFirst(tasks, i) && IsQueued(l.queue, tasks[i].id))
      {
      }
      if NoneDeferred(after) {
        forall i | 0 <= i < |tasks| && tasks[i].status == DeferredBudget
          ensures IsFirst(tasks, i) && IsQueued(l.queue, tasks[i].id)
        {
          assert after[i].status != DeferredBudget;
        }
      }
    }
  }

  lemma RecordKeepsDeferredQueued(l: Ledger, tasks: seq<Task>, e: LedgerEvent)
    requires UniqueIds(tasks) && DeferredAreQueued(tasks, l.queue) && e.Record?
    ensures var (l', tasks') := Step(l, tasks, e);
            SameIds(tasks, tasks') && UniqueIds(tasks') && DeferredAreQueued(tasks', l'.queue)
  {
    UniqueIdsAreFirst(tasks);
    DrainLeavesNoneDeferredIff(l.(lastResetDay := Some(e.day), spent := 0.0), tasks);
    var (l0, tasks0) := DailyReset(l, tasks, e.day);
    var (done, l', tasks') := RecordAction(l, tasks, e.taskId, e.agentId, e.kind, e.units, e.day);
    assert DeferredAreQueued(tasks0, l0.queue);
    if !done {
      assert l'.queue[|l0.queue|].taskId == e.taskId;
      forall i | 0 <= i < |tasks'| && tasks'[i].status == DeferredBudget ensures IsQueued(l'.queue, tasks'[i].id) {
        if tasks0[i].status == DeferredBudget {
          assert IsQueued(l0.queue, tasks0[i].id);
          var j :| 0 <= j < |l0.queue| && l0.queue[j].taskId == tasks0[i].id;
          assert l'.queue[j].taskId == tasks0[i].id;
        }
      }
    }
  }

  /** With unique ids every ledger step keeps deferred tasks queued, and a reset leaves none. */
  lemma StepKeepsDeferredQueued(l: Ledger, tasks: seq<Task>, e: LedgerEvent)
    requires UniqueIds(tasks) && DeferredAreQueued(tasks, l.queue)
    ensures var (l', tasks') := Step(l, tasks, e);
            && SameIds(tasks, tasks') && UniqueIds(tasks') && DeferredAreQueued(tasks', l'.queue)
            && (Resets(l, e) && !e.Record? ==> l'.queue == [] && NoneDeferred(tasks'))
  {
    UniqueIdsAreFirst(tasks);
    DrainLeavesNoneDeferredIff(l, tasks);
    if e.Record? {
      RecordKeepsDeferredQueued(l, tasks, e);
    } else if e.Reset? {
      DrainLeavesNoneDeferredIff(l.(spent := 0.0), tasks);
    } else {
      DrainLeavesNoneDeferredIff(l.(lastResetDay := Some(e.day), spent := 0.0), tasks);
      if e.Configure? {
        DrainLeavesNoneDeferredIff(SetCap(l, e.cap).(lastResetDay := Some(e.day), spent := 0.0), tasks);
      }
    }
  }

  /** The day of the last reset is written only while resetting, so where it was never written no
      step ever resets by the day, or writes it. */
  lemma NeverResetsByDay(l: Ledger, tasks: seq<Task>, e: LedgerEvent)
    requires l.lastResetDay.None?
    ensures Step(l, tasks, e).0.lastResetDay.None?
    ensures Resets(l, e) <==> e.Reset?
  {
  }
}
