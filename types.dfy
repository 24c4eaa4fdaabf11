/**
 * The records the stores and services pass around: a task row, a partial
 * update of one, a completion row and a calendar instance. Timestamps are
 * JavaScript time values; the database's ISO strings are taken as already
 * read into them.
 */
module Types {
  import opened Wrappers

  datatype Status = Active | Completed

  /** A row of the `tasks` table. */
  datatype Task = Task(
    id: string,
    userId: string,
    title: string,
    priority: Option<int>,
    dueDate: Option<int>,
    recurrenceRule: Option<string>,
    status: Status,
    originalInput: Option<string>,
    createdAt: int,
    updatedAt: int)

  /**
   * `Partial<Task>`: `None` leaves a field alone, `Some(v)` overwrites it
   * (for a nullable column `Some(None)` writes null).
   */
  datatype TaskPatch = TaskPatch(
    id: Option<string>,
    userId: Option<string>,
    title: Option<string>,
    priority: Option<Option<int>>,
    dueDate: Option<Option<int>>,
    recurrenceRule: Option<Option<string>>,
    status: Option<Status>,
    originalInput: Option<Option<string>>,
    createdAt: Option<int>,
    updatedAt: Option<int>)

  const NoChange := TaskPatch(None, None, None, None, None, None, None, None, None, None)

  /** A whole row used as an update, as the change feed does. */
  function FullPatch(t: Task): TaskPatch {
    TaskPatch(Some(t.id), Some(t.userId), Some(t.title), Some(t.priority), Some(t.dueDate),
      Some(t.recurrenceRule), Some(t.status), Some(t.originalInput), Some(t.createdAt), Some(t.updatedAt))
  }

  /** `{ ...t, ...u }`: every field `u` carries replaces the one in `t`. */
  function Merge(t: Task, u: TaskPatch): Task {
    Task(
      u.id.GetOr(t.id),
      u.userId.GetOr(t.userId),
      u.title.GetOr(t.title),
      u.priority.GetOr(t.priority),
      u.dueDate.GetOr(t.dueDate),
      u.recurrenceRule.GetOr(t.recurrenceRule),
      u.status.GetOr(t.status),
      u.originalInput.GetOr(t.originalInput),
      u.createdAt.GetOr(t.createdAt),
      u.updatedAt.GetOr(t.updatedAt))
  }

  lemma MergeNoChange(t: Task)
    ensures Merge(t, NoChange) == t
  {
  }

  /** Merging a whole row gives that row, whatever was there before. */
  lemma MergeFull(t: Task, n: Task)
    ensures Merge(t, FullPatch(n)) == n
  {
  }

  /** A row of `task_completions`: the task was done on `completedDate` (`YYYY-MM-DD`). */
  datatype TaskCompletion = TaskCompletion(
    id: string,
    taskId: string,
    userId: string,
    completedDate: string,
    completedAt: string)

  /** One appearance of a task on the calendar. */
  datatype TaskInstance = TaskInstance(
    id: string,
    parentTaskId: string,
    title: string,
    priority: Option<int>,
    instanceDate: int,
    isRecurring: bool,
    recurrenceRule: Option<string>,
    isCompleted: bool)

  /** `priority ?? 999`: no priority sorts after every real one. */
  function PriorityRank(p: Option<int>): int {
    p.GetOr(999)
  }
}
