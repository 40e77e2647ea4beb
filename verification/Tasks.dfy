/** The task list of `RepoCoordinator`: an array searched from the front by id. */
module Tasks {
  import opened Prelude

  datatype TaskStatus = Open | Claimed | InReview | TaskChangesRequested | DeferredBudget | Merged | Done

  datatype Task = Task(
    id: string, status: TaskStatus, changeRequestId: Option<string>, claimedBy: Option<string>, tags: seq<string>)

  /** `tasks.find(t => t.id === id)`, as an index. */
  function Find(tasks: seq<Task>, id: string): (i: Option<nat>)
    ensures i.Some? ==> i.value < |tasks| && tasks[i.value].id == id
    ensures i.Some? ==> forall j :: 0 <= j < i.value ==> tasks[j].id != id
    ensures i.None? ==> forall j :: 0 <= j < |tasks| ==> tasks[j].id != id
  {
    if tasks == [] then None
    else if tasks[0].id == id then Some(0)
    else
      var rest := Find(tasks[1..], id);
      assert forall j :: 0 < j < |tasks| ==> tasks[j] == tasks[1..][j - 1];
      if rest.None? then None else Some(rest.value + 1)
  }

  method FindLoop(tasks: seq<Task>, id: string) returns (i: Option<nat>)
    ensures i == Find(tasks, id)
  {
    for j := 0 to |tasks|
      invariant forall k :: 0 <= k < j ==> tasks[k].id != id
    {
      if tasks[j].id == id { return Some(j); }
    }
    i := None;
  }

  /** Only the first task with the id changes. */
  predicate IsFirst(tasks: seq<Task>, i: nat)
    requires i < |tasks|
  {
    Find(tasks, tasks[i].id) == Some(i)
  }

  /** Replaces the first task with the given id by `f` of it, as an update through `find` does. */
  function UpdateFirst(tasks: seq<Task>, id: string, f: Task -> Task): (r: seq<Task>)
    ensures |r| == |tasks|
    ensures forall i :: 0 <= i < |tasks| ==>
              r[i] == if tasks[i].id == id && IsFirst(tasks, i) then f(tasks[i]) else tasks[i]
  {
    var i := Find(tasks, id);
    if i.None? then tasks else tasks[i.value := f(tasks[i.value])]
  }

  /** The first task with the given id gets a status. */
  function WithStatus(tasks: seq<Task>, id: string, status: TaskStatus): seq<Task> {
    UpdateFirst(tasks, id, (t: Task) => t.(status := status))
  }

  function Reopened(t: Task): Task {
    t.(status := Open, claimedBy := None)
  }

  ghost predicate UniqueIds(tasks: seq<Task>) {
    forall i, j :: 0 <= i < j < |tasks| ==> tasks[i].id != tasks[j].id
  }

  lemma UniqueIdsAreFirst(tasks: seq<Task>)
    ensures UniqueIds(tasks) <==> forall i :: 0 <= i < |tasks| ==> IsFirst(tasks, i)
  {
    if !UniqueIds(tasks) {
      var i, j :| 0 <= i < j < |tasks| && tasks[i].id == tasks[j].id;
      assert !IsFirst(tasks, j);
    }
  }

  /** Same tasks in the same places, statuses and claims aside. */
  ghost predicate SameIds(before: seq<Task>, after: seq<Task>) {
    |after| == |before| && forall i :: 0 <= i < |before| ==> after[i].id == before[i].id
  }

  lemma {:induction false} FindBySameIds(before: seq<Task>, after: seq<Task>, id: string)
    requires SameIds(before, after)
    ensures Find(after, id) == Find(before, id)
  {
    var i, j := Find(before, id), Find(after, id);
  }
}
