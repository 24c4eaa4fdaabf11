/**
 * RealtimeManager: the change feed of the `tasks` and `task_completions`
 * tables applied to the two stores, and the two channels it holds open.
 * The database service is reduced to what the manager does with it: a
 * channel is a fresh token named by its topic, and releasing one is
 * recorded in a log, so the model can say which channels are still live.
 */
module Realtime {
  import opened Wrappers
  import opened Types
  import opened Seqs
  import TasksStore
  import CompletionsStore

  datatype EventType = Insert | Update | Delete

  /** A change to `tasks`: the new row, and the id of the old one. */
  datatype TaskPayload = TaskPayload(eventType: EventType, newRow: Task, oldId: string)

  /** The columns of a deleted completion the feed supplies. */
  datatype OldCompletion = OldCompletion(id: string, taskId: string, completedDate: string)

  /** A change to `task_completions`: the new row, and the key columns of the old one. */
  datatype CompletionPayload = CompletionPayload(eventType: EventType, newRow: TaskCompletion, oldRow: OldCompletion)

  // ----- dispatch -----

  /** The task list after handleTaskChange(p). */
  function TaskEffect(tasks: seq<Task>, p: TaskPayload): seq<Task> {
    match p.eventType
    case Insert => TasksStore.WithTask(tasks, p.newRow)
    case Update =>
      if p.newRow.status == Completed then TasksStore.WithoutTask(tasks, p.newRow.id)
      else TasksStore.Patched(tasks, p.newRow.id, FullPatch(p.newRow))
    case Delete => TasksStore.WithoutTask(tasks, p.oldId)
  }

  /**
   * What each task event leaves behind: an insert's id is present, a
   * completing update's and a delete's id are absent, and any other update
   * replaces every row with the new row's id by the new row.
   */
  lemma TaskEffectSpec(tasks: seq<Task>, p: TaskPayload)
    ensures p.eventType == Insert ==> TasksStore.HasTask(TaskEffect(tasks, p), p.newRow.id)
    ensures p.eventType == Update && p.newRow.status == Completed ==>
      !TasksStore.HasTask(TaskEffect(tasks, p), p.newRow.id)
    ensures p.eventType == Update && p.newRow.status != Completed ==>
      var r := TaskEffect(tasks, p);
      |r| == |tasks|
      && forall i :: 0 <= i < |tasks| ==> r[i] == if tasks[i].id == p.newRow.id then p.newRow else tasks[i]
    ensures p.eventType == Delete ==> !TasksStore.HasTask(TaskEffect(tasks, p), p.oldId)
  {
    if p.eventType == Update && p.newRow.status != Completed {
      forall i | 0 <= i < |tasks| && tasks[i].id == p.newRow.id {
        MergeFull(tasks[i], p.newRow);
      }
    }
  }

  /** The feed may deliver an event twice: applying it again changes nothing. */
  lemma TaskEffectIdempotent(tasks: seq<Task>, p: TaskPayload)
    ensures TaskEffect(TaskEffect(tasks, p), p) == TaskEffect(tasks, p)
  {
    match p.eventType
    case Insert => TasksStore.AddTaskIdempotent(tasks, p.newRow);
    case Update =>
      if p.newRow.status == Completed {
        TasksStore.RemoveIdempotent(tasks, p.newRow.id);
      } else {
        TasksStore.UpdateIdempotent(tasks, p.newRow.id, FullPatch(p.newRow));
      }
    case Delete => TasksStore.RemoveIdempotent(tasks, p.oldId);
  }

  /** Every task event keeps ids unique. */
  lemma TaskEffectKeepsUnique(tasks: seq<Task>, p: TaskPayload)
    requires TasksStore.UniqueIds(tasks)
    ensures TasksStore.UniqueIds(TaskEffect(tasks, p))
  {
    match p.eventType
    case Insert => TasksStore.AddTaskKeepsUnique(tasks, p.newRow);
    case Update =>
      if p.newRow.status == Completed {
        TasksStore.RemoveKeepsUnique(tasks, p.newRow.id);
      } else {
        TasksStore.UpdateKeepsUnique(tasks, p.newRow.id, FullPatch(p.newRow));
      }
    case Delete => TasksStore.RemoveKeepsUnique(tasks, p.oldId);
  }

  /** The completion list after handleCompletionChange(p); an update is ignored. */
  function CompletionEffect(cs: seq<TaskCompletion>, p: CompletionPayload): seq<TaskCompletion> {
    match p.eventType
    case Insert => CompletionsStore.WithCompletion(cs, p.newRow)
    case Delete => CompletionsStore.WithoutTaskDay(cs, p.oldRow.taskId, p.oldRow.completedDate)
    case Update => cs
  }

  /**
   * A delete drops every record of the old row's task and date, whatever
   * their ids, and keeps all other records; an update changes nothing.
   */
  lemma CompletionEffectSpec(cs: seq<TaskCompletion>, p: CompletionPayload)
    ensures p.eventType == Insert ==> CompletionsStore.HasCompletion(CompletionEffect(cs, p), p.newRow.id)
    ensures p.eventType == Delete ==> forall x :: x in CompletionEffect(cs, p) <==>
      x in cs && !(x.taskId == p.oldRow.taskId && x.completedDate == p.oldRow.completedDate)
    ensures p.eventType == Update ==> CompletionEffect(cs, p) == cs
  {
  }

  /** Applying a completion event twice is applying it once. */
  lemma CompletionEffectIdempotent(cs: seq<TaskCompletion>, p: CompletionPayload)
    ensures CompletionEffect(CompletionEffect(cs, p), p) == CompletionEffect(cs, p)
  {
    match p.eventType
    case Insert => CompletionsStore.AddIdempotent(cs, p.newRow);
    case Delete =>
      FilterIdempotent(cs, CompletionsStore.OtherTaskDay(p.oldRow.taskId, p.oldRow.completedDate));
    case Update =>
  }

  // ----- channels -----

  /** A subscription to one table's changes, named by its topic. */
  class Channel {
    const topic: string

    constructor(topic: string)
      ensures this.topic == topic
    {
      this.topic := topic;
    }
  }

  class RealtimeManager {
    const userId: string
    const tasks: TasksStore.Store
    const completions: CompletionsStore.Store
    var tasksChannel: Option<Channel>
    var completionsChannel: Option<Channel>
    /** Every channel this manager created, in order. */
    ghost var created: seq<Channel>
    /** Every channel handed to `removeChannel`, in order. */
    ghost var released: seq<Channel>

    /** A channel is live when it was created and not yet released. */
    ghost predicate Live(c: Channel)
      reads this
    {
      c in created && c !in released
    }

    /**
     * Each table has at most one live channel: the one its field holds. The
     * two fields hold different channels, each live and on its own topic.
     */
    ghost predicate Valid()
      reads this
    {
      (forall c | c in created && c !in released :: tasksChannel == Some(c) || completionsChannel == Some(c))
      && (tasksChannel.Some? ==> Live(tasksChannel.value) && tasksChannel.value.topic == "tasks:" + userId)
      && (completionsChannel.Some? ==>
            Live(completionsChannel.value) && completionsChannel.value.topic == "completions:" + userId)
      && (tasksChannel.Some? && completionsChannel.Some? ==> tasksChannel.value != completionsChannel.value)
    }

    constructor(userId: string, tasks: TasksStore.Store, completions: CompletionsStore.Store)
      ensures this.userId == userId && this.tasks == tasks && this.completions == completions
      ensures tasksChannel == None && completionsChannel == None
      ensures created == [] && released == []
      ensures Valid()
    {
      this.userId := userId;
      this.tasks := tasks;
      this.completions := completions;
      tasksChannel := None;
      completionsChannel := None;
      created := [];
      released := [];
    }

    /** subscribe(): open both channels. */
    method Subscribe()
      requires Valid()
      modifies this
      ensures Valid()
      ensures tasksChannel.Some? && fresh(tasksChannel.value)
      ensures completionsChannel.Some? && fresh(completionsChannel.value)
      ensures released == old(released)
        + (if old(tasksChannel).Some? then [old(tasksChannel).value] else [])
        + (if old(completionsChannel).Some? then [old(completionsChannel).value] else [])
    {
      SubscribeTasks();
      SubscribeCompletions();
    }

    /** subscribeTasks(): release the tasks channel if there is one, then open a new one. */
    method SubscribeTasks()
      requires Valid()
      modifies this
      ensures Valid()
      ensures tasksChannel.Some? && fresh(tasksChannel.value)
      ensures completionsChannel == old(completionsChannel)
      ensures created == old(created) + [tasksChannel.value]
      ensures released == old(released) + (if old(tasksChannel).Some? then [old(tasksChannel).value] else [])
    {
      if tasksChannel.Some? {
        released := released + [tasksChannel.value];
      }
      var c := new Channel("tasks:" + userId);
      created := created + [c];
      tasksChannel := Some(c);
    }

    /** subscribeCompletions(): release the completions channel if there is one, then open a new one. */
    method SubscribeCompletions()
      requires Valid()
      modifies this
      ensures Valid()
      ensures completionsChannel.Some? && fresh(completionsChannel.value)
      ensures tasksChannel == old(tasksChannel)
      ensures created == old(created) + [completionsChannel.value]
      ensures released == old(released) + (if old(completionsChannel).Some? then [old(completionsChannel).value] else [])
    {
      if completionsChannel.Some? {
        released := released + [completionsChannel.value];
      }
      var c := new Channel("completions:" + userId);
      created := created + [c];
      completionsChannel := Some(c);
    }

    /** unsubscribe(): release whichever channels are held; afterwards no channel is live. */
    method Unsubscribe()
      requires Valid()
      modifies this
      ensures Valid()
      ensures tasksChannel == None && completionsChannel == None
      ensures forall c | c in created :: c in released
      ensures created == old(created)
      ensures released == old(released)
        + (if old(tasksChannel).Some? then [old(tasksChannel).value] else [])
        + (if old(completionsChannel).Some? then [old(completionsChannel).value] else [])
    {
      if tasksChannel.Some? {
        released := released + [tasksChannel.value];
        tasksChannel := None;
      }
      if completionsChannel.Some? {
        released := released + [completionsChannel.value];
        completionsChannel := None;
      }
    }

    /** handleTaskChange(payload): the matching tasks store operation. */
    method HandleTaskChange(p: TaskPayload)
      modifies tasks
      ensures tasks.tasks == TaskEffect(old(tasks.tasks), p)
      ensures tasks.loading == old(tasks.loading) && tasks.error == old(tasks.error)
    {
      match p.eventType
      case Insert =>
        tasks.AddTask(p.newRow);
      case Update =>
        if p.newRow.status == Completed {
          tasks.RemoveTask(p.newRow.id);
        } else {
          tasks.UpdateTask(p.newRow.id, FullPatch(p.newRow));
        }
      case Delete =>
        tasks.RemoveTask(p.oldId);
    }

    /** handleCompletionChange(payload): the matching completions store operation. */
    method HandleCompletionChange(p: CompletionPayload)
      modifies completions
      ensures completions.completions == CompletionEffect(old(completions.completions), p)
      ensures completions.loading == old(completions.loading) && completions.error == old(completions.error)
    {
      match p.eventType
      case Insert =>
        completions.AddCompletion(p.newRow);
      case Delete =>
        completions.RemoveCompletion(p.oldRow.taskId, p.oldRow.completedDate);
      case Update =>
    }
  }
}
