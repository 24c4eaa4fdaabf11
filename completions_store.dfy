/**
 * The completions store: the client's mirror of the user's completion rows
 * (one per task per day it was done), with a loading flag and an error
 * message, and the derived set of completion keys the calendar looks
 * instances up in.
 */
module CompletionsStore {
  import opened Wrappers
  import opened Types
  import opened Seqs
  import opened DateKey

  // ----- the list operations -----

  /** `completions.some(c => c.id === id)`. */
  predicate HasCompletion(cs: seq<TaskCompletion>, id: string) {
    exists i :: 0 <= i < |cs| && cs[i].id == id
  }

  function CompletionId(c: TaskCompletion): string {
    c.id
  }

  /** The list after addCompletion(c): unchanged when the id is present, else `c` at the end. */
  function WithCompletion(cs: seq<TaskCompletion>, c: TaskCompletion): (r: seq<TaskCompletion>)
    ensures HasCompletion(r, c.id)
    ensures forall x :: x in r <==> x in cs || (x == c && !HasCompletion(cs, c.id))
  {
    if HasCompletion(cs, c.id) then cs
    else
      assert (cs + [c])[|cs|] == c;
      cs + [c]
  }

  /** Adding a completion twice is adding it once. */
  lemma AddIdempotent(cs: seq<TaskCompletion>, c: TaskCompletion)
    ensures WithCompletion(WithCompletion(cs, c), c) == WithCompletion(cs, c)
  {
  }

  /** Adding keeps ids unique. */
  lemma AddKeepsUnique(cs: seq<TaskCompletion>, c: TaskCompletion)
    requires DistinctBy(cs, CompletionId)
    ensures DistinctBy(WithCompletion(cs, c), CompletionId)
  {
    if !HasCompletion(cs, c.id) {
      var r := cs + [c];
      forall i, j | 0 <= i < j < |r| ensures r[i].id != r[j].id {
        if j == |cs| {
          assert r[i] == cs[i];
        } else {
          assert r[i] == cs[i] && r[j] == cs[j];
        }
      }
    }
  }

  /** The test removeCompletion filters with: not this task on this date. */
  function OtherTaskDay(taskId: string, date: string): TaskCompletion -> bool {
    (c: TaskCompletion) => !(c.taskId == taskId && c.completedDate == date)
  }

  /** The list after removeCompletion(taskId, date): every record of that task on that date dropped. */
  function WithoutTaskDay(cs: seq<TaskCompletion>, taskId: string, date: string): (r: seq<TaskCompletion>)
    ensures forall x :: x in r <==> x in cs && !(x.taskId == taskId && x.completedDate == date)
  {
    Filter(cs, OtherTaskDay(taskId, date))
  }

  /** The test removeCompletionById filters with: `c => c.id !== id`. */
  function OtherCompletionId(id: string): TaskCompletion -> bool {
    (c: TaskCompletion) => c.id != id
  }

  /** The list after removeCompletionById(id): the records with other ids. */
  function WithoutCompletion(cs: seq<TaskCompletion>, id: string): (r: seq<TaskCompletion>)
    ensures !HasCompletion(r, id)
    ensures forall x :: x in r <==> x in cs && x.id != id
  {
    var r := Filter(cs, OtherCompletionId(id));
    assert !HasCompletion(r, id) by {
      forall i | 0 <= i < |r| ensures r[i].id != id {
        assert r[i] in r;
      }
    }
    r
  }

  /** Both removals keep the remaining records in their order. */
  lemma RemoveAppend(a: seq<TaskCompletion>, b: seq<TaskCompletion>, taskId: string, date: string, id: string)
    ensures WithoutTaskDay(a + b, taskId, date) == WithoutTaskDay(a, taskId, date) + WithoutTaskDay(b, taskId, date)
    ensures WithoutCompletion(a + b, id) == WithoutCompletion(a, id) + WithoutCompletion(b, id)
  {
    FilterAppend(a, b, OtherTaskDay(taskId, date));
    FilterAppend(a, b, OtherCompletionId(id));
  }

  /** Each removal drops the matching records, keeps every other one as often as before, and keeps ids unique. */
  lemma RemoveCounts(cs: seq<TaskCompletion>, taskId: string, date: string, id: string, x: TaskCompletion)
    ensures multiset(WithoutTaskDay(cs, taskId, date))[x]
      == if x.taskId == taskId && x.completedDate == date then 0 else multiset(cs)[x]
    ensures multiset(WithoutCompletion(cs, id))[x] == if x.id == id then 0 else multiset(cs)[x]
    ensures DistinctBy(cs, CompletionId) ==> DistinctBy(WithoutCompletion(cs, id), CompletionId)
  {
    FilterCount(cs, OtherTaskDay(taskId, date), x);
    FilterCount(cs, OtherCompletionId(id), x);
    if DistinctBy(cs, CompletionId) {
      FilterDistinct(cs, OtherCompletionId(id), CompletionId);
    }
  }

  // ----- completionSet -----

  /** The key of a record: `createCompletionKey(task_id, completed_date)`. */
  function CompletionKey(c: TaskCompletion): string {
    CreateCompletionKey(c.taskId, DateString(c.completedDate))
  }

  /** completionSet: the key of every record. */
  function CompletionSet(cs: seq<TaskCompletion>): (r: set<string>)
    ensures forall k :: k in r <==> exists i :: 0 <= i < |cs| && CompletionKey(cs[i]) == k
  {
    var r := set c | c in cs :: CompletionKey(c);
    assert forall k :: k in r ==> exists i :: 0 <= i < |cs| && CompletionKey(cs[i]) == k by {
      forall k | k in r ensures exists i :: 0 <= i < |cs| && CompletionKey(cs[i]) == k {
        var c :| c in cs && CompletionKey(c) == k;
        var i :| 0 <= i < |cs| && cs[i] == c;
      }
    }
    r
  }

  /** The set grows by one key per record, as the loop's `set.add` does. */
  lemma CompletionSetAppend(cs: seq<TaskCompletion>, c: TaskCompletion)
    ensures CompletionSet(cs + [c]) == CompletionSet(cs) + {CompletionKey(c)}
  {
    var l, r := CompletionSet(cs + [c]), CompletionSet(cs) + {CompletionKey(c)};
    forall k | k in l ensures k in r {
      var i :| 0 <= i < |cs + [c]| && CompletionKey((cs + [c])[i]) == k;
      if i < |cs| {
        assert (cs + [c])[i] == cs[i];
      }
    }
    forall k | k in r ensures k in l {
      if k == CompletionKey(c) {
        assert (cs + [c])[|cs|] == c;
      } else {
        var i :| 0 <= i < |cs| && CompletionKey(cs[i]) == k;
        assert (cs + [c])[i] == cs[i];
      }
    }
  }

  /** After addCompletion(c) the key of `c` is in the set, unless another record already holds its id. */
  lemma AddedKeyPresent(cs: seq<TaskCompletion>, c: TaskCompletion)
    requires forall x :: x in cs && x.id == c.id ==> x == c
    ensures CompletionKey(c) in CompletionSet(WithCompletion(cs, c))
  {
    var r := WithCompletion(cs, c);
    var i :| 0 <= i < |r| && r[i].id == c.id;
    assert r[i] in r;
  }

  /**
   * After removeCompletion(taskId, date) the key `taskId_date` is gone, when
   * every date has the length of `date` (every `YYYY-MM-DD` has ten characters).
   */
  lemma RemovedKeyAbsent(cs: seq<TaskCompletion>, taskId: string, date: string)
    requires forall x :: x in cs ==> |x.completedDate| == |date|
    ensures CreateCompletionKey(taskId, DateString(date)) !in CompletionSet(WithoutTaskDay(cs, taskId, date))
  {
    var r := WithoutTaskDay(cs, taskId, date);
    forall i | 0 <= i < |r| ensures CompletionKey(r[i]) != CreateCompletionKey(taskId, DateString(date)) {
      assert r[i] in r;
      if CompletionKey(r[i]) == CreateCompletionKey(taskId, DateString(date)) {
        CompletionKeyInjective(r[i].taskId, r[i].completedDate, taskId, date);
      }
    }
  }

  /** Without equal date lengths a key can outlive its removal: task `a` on `b_c` shares the key `a_b_c`. */
  lemma RemovedKeyCollision()
    ensures var cs := [TaskCompletion("1", "a", "u", "b_c", "")];
      CreateCompletionKey("a_b", DateString("c")) in CompletionSet(WithoutTaskDay(cs, "a_b", "c"))
  {
    var cs := [TaskCompletion("1", "a", "u", "b_c", "")];
    assert cs[0] in WithoutTaskDay(cs, "a_b", "c");
    assert WithoutTaskDay(cs, "a_b", "c")[0] == cs[0];
  }

  // ----- the store -----

  /** The state of the completions store and its operations. */
  class Store {
    var completions: seq<TaskCompletion>
    var loading: bool
    var error: Option<string>

    /** The initial state: no records, not loading, no error. */
    constructor()
      ensures completions == [] && !loading && error == None
    {
      completions := [];
      loading := false;
      error := None;
    }

    /** The keys of the current records, as the derived store gives them. */
    function Keys(): set<string>
      reads this
    {
      CompletionSet(completions)
    }

    method SetCompletions(cs: seq<TaskCompletion>)
      modifies this
      ensures completions == cs && !loading && error == None
    {
      completions, loading, error := cs, false, None;
    }

    method AddCompletion(c: TaskCompletion)
      modifies this
      ensures completions == WithCompletion(old(completions), c)
      ensures loading == old(loading) && error == old(error)
    {
      completions := WithCompletion(completions, c);
    }

    method RemoveCompletion(taskId: string, date: string)
      modifies this
      ensures completions == WithoutTaskDay(old(completions), taskId, date)
      ensures loading == old(loading) && error == old(error)
    {
      completions := WithoutTaskDay(completions, taskId, date);
    }

    method RemoveCompletionById(id: string)
      modifies this
      ensures completions == WithoutCompletion(old(completions), id)
      ensures loading == old(loading) && error == old(error)
    {
      completions := WithoutCompletion(completions, id);
    }

    method SetLoading(l: bool)
      modifies this
      ensures loading == l && completions == old(completions) && error == old(error)
    {
      loading := l;
    }

    method SetError(e: Option<string>)
      modifies this
      ensures error == e && !loading && completions == old(completions)
    {
      error, loading := e, false;
    }

    method Reset()
      modifies this
      ensures completions == [] && !loading && error == None
    {
      completions, loading, error := [], false, None;
    }
  }
}
