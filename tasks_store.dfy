/**
 * The tasks store: the client's mirror of the user's task rows, with a
 * loading flag and an error message, and the derived list of active tasks
 * sorted for display. Each store operation replaces the list by a function
 * of the old one; those functions are defined here and their properties
 * proved, and the `Store` class applies them to its fields.
 */
module TasksStore {
  import opened Wrappers
  import opened Types
  import opened Sorting
  import opened Seqs

  // ----- the list operations -----

  /** `tasks.some(t => t.id === id)`. */
  predicate HasTask(tasks: seq<Task>, id: string) {
    exists i :: 0 <= i < |tasks| && tasks[i].id == id
  }

  function TaskId(t: Task): string {
    t.id
  }

  /** No two entries share an id. */
  predicate UniqueIds(tasks: seq<Task>) {
    DistinctBy(tasks, TaskId)
  }

  /** The list after addTask(task): unchanged when the id is present, else the task in front. */
  function WithTask(tasks: seq<Task>, task: Task): (r: seq<Task>)
    ensures HasTask(r, task.id)
    ensures forall x :: x in r <==> x in tasks || (x == task && !HasTask(tasks, task.id))
  {
    if HasTask(tasks, task.id) then tasks
    else
      assert ([task] + tasks)[0] == task;
      [task] + tasks
  }

  /** Adding a task twice is adding it once. */
  lemma AddTaskIdempotent(tasks: seq<Task>, task: Task)
    ensures WithTask(WithTask(tasks, task), task) == WithTask(tasks, task)
  {
  }

  /** Adding keeps ids unique. */
  lemma AddTaskKeepsUnique(tasks: seq<Task>, task: Task)
    requires UniqueIds(tasks)
    ensures UniqueIds(WithTask(tasks, task))
  {
    if !HasTask(tasks, task.id) {
      var r := [task] + tasks;
      forall i, j | 0 <= i < j < |r| ensures r[i].id != r[j].id {
        if i == 0 {
          assert r[j] == tasks[j - 1];
        } else {
          assert r[i] == tasks[i - 1] && r[j] == tasks[j - 1];
        }
      }
    }
  }

  /** The list after updateTask(id, u): every entry with that id has `u` merged in. */
  function Patched(tasks: seq<Task>, id: string, u: TaskPatch): (r: seq<Task>)
    ensures |r| == |tasks|
    ensures forall i :: 0 <= i < |tasks| && tasks[i].id != id ==> r[i] == tasks[i]
    ensures forall i :: 0 <= i < |tasks| && tasks[i].id == id ==> r[i] == Merge(tasks[i], u)
  {
    seq(|tasks|, i requires 0 <= i < |tasks| => if tasks[i].id == id then Merge(tasks[i], u) else tasks[i])
  }

  /** Updating an id no entry has changes nothing. */
  lemma UpdateAbsent(tasks: seq<Task>, id: string, u: TaskPatch)
    requires !HasTask(tasks, id)
    ensures Patched(tasks, id, u) == tasks
  {
  }

  /** Merging the same fields twice is merging them once. */
  lemma MergeIdempotent(t: Task, u: TaskPatch)
    ensures Merge(Merge(t, u), u) == Merge(t, u)
  {
  }

  /** Applying the same update twice is applying it once. */
  lemma UpdateIdempotent(tasks: seq<Task>, id: string, u: TaskPatch)
    ensures Patched(Patched(tasks, id, u), id, u) == Patched(tasks, id, u)
  {
    var once := Patched(tasks, id, u);
    forall i | 0 <= i < |tasks| ensures Patched(once, id, u)[i] == once[i] {
      if tasks[i].id == id {
        MergeIdempotent(tasks[i], u);
      }
    }
  }

  /** An update that leaves the id alone keeps every entry's id, so keeps ids unique. */
  lemma UpdateKeepsUnique(tasks: seq<Task>, id: string, u: TaskPatch)
    requires UniqueIds(tasks)
    requires u.id == None || u.id == Some(id)
    ensures forall i :: 0 <= i < |tasks| ==> Patched(tasks, id, u)[i].id == tasks[i].id
    ensures UniqueIds(Patched(tasks, id, u))
  {
  }

  /** The test removeTask filters with: `t => t.id !== id`. */
  function OtherId(id: string): Task -> bool {
    (t: Task) => t.id != id
  }

  /** The list after removeTask(id): the entries with other ids, in their order. */
  function WithoutTask(tasks: seq<Task>, id: string): (r: seq<Task>)
    ensures !HasTask(r, id)
    ensures forall x :: x in r <==> x in tasks && x.id != id
  {
    var r := Filter(tasks, OtherId(id));
    assert !HasTask(r, id) by {
      forall i | 0 <= i < |r| ensures r[i].id != id {
        assert r[i] in r;
      }
    }
    r
  }

  /** Each entry with another id occurs as often as before; entries with `id` are gone. */
  lemma RemoveCounts(tasks: seq<Task>, id: string)
    ensures forall x: Task :: multiset(WithoutTask(tasks, id))[x] == if x.id == id then 0 else multiset(tasks)[x]
  {
    forall x: Task {
      FilterCount(tasks, OtherId(id), x);
    }
  }

  /** Removal splits over concatenation, so the kept entries keep their order. */
  lemma RemoveAppend(a: seq<Task>, b: seq<Task>, id: string)
    ensures WithoutTask(a + b, id) == WithoutTask(a, id) + WithoutTask(b, id)
  {
    FilterAppend(a, b, OtherId(id));
  }

  /** Removing an id no entry has changes nothing. */
  lemma RemoveAbsent(tasks: seq<Task>, id: string)
    requires !HasTask(tasks, id)
    ensures WithoutTask(tasks, id) == tasks
  {
    forall x | x in tasks ensures OtherId(id)(x) {
      var i :| 0 <= i < |tasks| && tasks[i] == x;
    }
    FilterAll(tasks, OtherId(id));
  }

  /** Removing twice is removing once. */
  lemma RemoveIdempotent(tasks: seq<Task>, id: string)
    ensures WithoutTask(WithoutTask(tasks, id), id) == WithoutTask(tasks, id)
  {
    FilterIdempotent(tasks, OtherId(id));
  }

  /** Removal keeps ids unique. */
  lemma RemoveKeepsUnique(tasks: seq<Task>, id: string)
    requires UniqueIds(tasks)
    ensures UniqueIds(WithoutTask(tasks, id))
  {
    FilterDistinct(tasks, OtherId(id), TaskId);
  }

  /** Adding a task and then removing its id is removing its id. */
  lemma RemoveAfterAdd(tasks: seq<Task>, task: Task)
    ensures WithoutTask(WithTask(tasks, task), task.id) == WithoutTask(tasks, task.id)
  {
    if !HasTask(tasks, task.id) {
      RemoveAppend([task], tasks, task.id);
    }
  }

  // ----- activeTasks -----

  /** The test activeTasks filters with: `t => t.status === 'active'`. */
  function IsActive(t: Task): bool {
    t.status == Active
  }

  /**
   * The comparator of activeTasks: priority (none counts as 999), then due
   * date with dated tasks first, then newest creation first.
   */
  function TaskCompare(a: Task, b: Task): int {
    var aPrio := PriorityRank(a.priority);
    var bPrio := PriorityRank(b.priority);
    if aPrio != bPrio then aPrio - bPrio
    else if a.dueDate.Some? && b.dueDate.Some? then a.dueDate.value - b.dueDate.value
    else if a.dueDate.Some? then -1
    else if b.dueDate.Some? then 1
    else b.createdAt - a.createdAt
  }

  /** The key the comparator sorts by. */
  function TaskKey(t: Task): SortKey {
    SortKey(PriorityRank(t.priority),
      if t.dueDate.Some? then 0 else 1,
      if t.dueDate.Some? then t.dueDate.value else -t.createdAt)
  }

  /** The key orders tasks exactly as the comparator does, ties included. */
  lemma TaskKeyAgrees(a: Task, b: Task)
    ensures KeyLe(TaskKey(a), TaskKey(b)) <==> TaskCompare(a, b) <= 0
    ensures TaskKey(a) == TaskKey(b) <==> TaskCompare(a, b) == 0
  {
  }

  /** activeTasks: the active tasks, as often as the list holds them, in the comparator's order. */
  function ActiveTasks(tasks: seq<Task>): (r: seq<Task>)
    ensures forall x :: x in r <==> x in tasks && x.status == Active
    ensures multiset(r) == multiset(Filter(tasks, IsActive))
    ensures forall i, j :: 0 <= i < j < |r| ==> TaskCompare(r[i], r[j]) <= 0
  {
    var active := Filter(tasks, IsActive);
    var r := SortBy(active, TaskKey);
    assert forall x :: x in r <==> x in active by {
      forall x ensures x in r <==> x in active {
        assert x in r <==> x in multiset(r);
        assert x in active <==> x in multiset(active);
      }
    }
    forall i, j | 0 <= i < j < |r| ensures TaskCompare(r[i], r[j]) <= 0 {
      SortedOrdered(r, TaskKey, i, j);
      TaskKeyAgrees(r[i], r[j]);
    }
    r
  }

  /** A completed task never shows, and completing one removes it from the view. */
  lemma CompletedNotActive(tasks: seq<Task>, t: Task)
    requires t.status == Completed
    ensures t !in ActiveTasks(tasks)
  {
  }

  // ----- the store -----

  /** The state of the tasks store and its operations. */
  class Store {
    var tasks: seq<Task>
    var loading: bool
    var error: Option<string>

    /** The initial state: no tasks, loading, no error. */
    constructor()
      ensures tasks == [] && loading && error == None
    {
      tasks := [];
      loading := true;
      error := None;
    }

    /** The active tasks of the current list, as the derived store gives them. */
    function Active(): seq<Task>
      reads this
    {
      ActiveTasks(tasks)
    }

    method SetTasks(ts: seq<Task>)
      modifies this
      ensures tasks == ts && !loading && error == None
    {
      tasks, loading, error := ts, false, None;
    }

    method AddTask(task: Task)
      modifies this
      ensures tasks == WithTask(old(tasks), task)
      ensures loading == old(loading) && error == old(error)
    {
      tasks := WithTask(tasks, task);
    }

    method UpdateTask(id: string, u: TaskPatch)
      modifies this
      ensures tasks == Patched(old(tasks), id, u)
      ensures loading == old(loading) && error == old(error)
    {
      tasks := Patched(tasks, id, u);
    }

    method RemoveTask(id: string)
      modifies this
      ensures tasks == WithoutTask(old(tasks), id)
      ensures loading == old(loading) && error == old(error)
    {
      tasks := WithoutTask(tasks, id);
    }

    method SetLoading(l: bool)
      modifies this
      ensures loading == l && tasks == old(tasks) && error == old(error)
    {
      loading := l;
    }

    method SetError(e: Option<string>)
      modifies this
      ensures error == e && !loading && tasks == old(tasks)
    {
      error, loading := e, false;
    }

    method Reset()
      modifies this
      ensures tasks == [] && loading && error == None
    {
      tasks, loading, error := [], true, None;
    }
  }
}
