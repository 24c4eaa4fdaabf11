/**
 * CalendarService and the date-range helpers beside it: expanding tasks into
 * sorted calendar instances, grouping instances by day, listing the days of
 * a range, and the week, month, month-view and year bounds of a date. Dates
 * are time values read in a local time zone `tz` (see JsDate).
 */
module CalendarService {
  import opened Wrappers
  import opened Civil
  import opened JsDate
  import opened DateKey
  import opened Types
  import opened Sorting
  import opened Recurrence

  // ----- expandTasksToInstances -----

  /** `f` applied to each element of `xs`, the results joined in order. */
  function Concat<T, U>(xs: seq<T>, f: T -> seq<U>): seq<U> {
    if xs == [] then []
    else Concat(xs[..|xs| - 1], f) + f(xs[|xs| - 1])
  }

  /** A value is in the join exactly when some element's result holds it. */
  lemma {:induction false} ConcatMembers<T, U>(xs: seq<T>, f: T -> seq<U>)
    ensures forall y :: y in Concat(xs, f) <==> exists k :: 0 <= k < |xs| && y in f(xs[k])
  {
    if xs != [] {
      var init := xs[..|xs| - 1];
      ConcatMembers(init, f);
      forall y ensures y in Concat(xs, f) <==> exists k :: 0 <= k < |xs| && y in f(xs[k]) {
        if y in Concat(init, f) {
          var k :| 0 <= k < |init| && y in f(init[k]);
          assert xs[k] == init[k];
        }
        if exists k :: 0 <= k < |xs| && y in f(xs[k]) {
          var k :| 0 <= k < |xs| && y in f(xs[k]);
          if k < |init| {
            assert xs[k] == init[k];
          }
        }
      }
    }
  }

  /** expandRecurringTask with the window and completion set of one call. */
  function Expander(start: int, end: int, completed: set<string>): Task -> seq<TaskInstance> {
    t => ExpandRecurringTask(t, start, end, completed)
  }

  /** The instances of `tasks`, task after task, as the loop pushes them. */
  function Collected(tasks: seq<Task>, start: int, end: int, completed: set<string>): seq<TaskInstance> {
    Concat(tasks, Expander(start, end, completed))
  }

  /** An instance is collected exactly when some task expands to it. */
  lemma CollectedMembers(tasks: seq<Task>, start: int, end: int, completed: set<string>)
    ensures forall x :: x in Collected(tasks, start, end, completed) <==>
      exists k :: 0 <= k < |tasks| && x in ExpandRecurringTask(tasks[k], start, end, completed)
  {
    ConcatMembers(tasks, Expander(start, end, completed));
  }

  /** `instances.filter(i => !i.isCompleted)`. */
  function Pending(s: seq<TaskInstance>): (r: seq<TaskInstance>)
    ensures forall x :: x in r <==> x in s && !x.isCompleted
    ensures forall x: TaskInstance :: multiset(r)[x] == if x.isCompleted then 0 else multiset(s)[x]
  {
    if s == [] then []
    else
      assert s == [s[0]] + s[1..];
      (if s[0].isCompleted then [] else [s[0]]) + Pending(s[1..])
  }

  /** The instances shown: all of them, or the ones not completed when `hideCompleted`. */
  function Visible(s: seq<TaskInstance>, hideCompleted: bool): seq<TaskInstance> {
    if hideCompleted then Pending(s) else s
  }

  /** The comparator of the sort: by date, then by priority with no priority last. */
  function InstanceCompare(a: TaskInstance, b: TaskInstance): int {
    var dateCompare := a.instanceDate - b.instanceDate;
    if dateCompare != 0 then dateCompare
    else PriorityRank(a.priority) - PriorityRank(b.priority)
  }

  function InstanceKey(x: TaskInstance): SortKey {
    SortKey(x.instanceDate, PriorityRank(x.priority), 0)
  }

  /** The sort key orders instances as the comparator does, ties included. */
  lemma InstanceKeyAgrees(a: TaskInstance, b: TaskInstance)
    ensures KeyLe(InstanceKey(a), InstanceKey(b)) <==> InstanceCompare(a, b) <= 0
    ensures InstanceKey(a) == InstanceKey(b) <==> InstanceCompare(a, b) == 0
  {
  }

  /** expandTasksToInstances(tasks, startDate, endDate, completedSet, hideCompleted). */
  method ExpandTasksToInstances(tasks: seq<Task>, start: int, end: int, completed: set<string>, hideCompleted: bool)
    returns (r: seq<TaskInstance>)
    ensures multiset(r) == multiset(Visible(Collected(tasks, start, end, completed), hideCompleted))
    ensures forall x :: x in r <==>
      (exists k :: 0 <= k < |tasks| && x in ExpandRecurringTask(tasks[k], start, end, completed))
      && (hideCompleted ==> !x.isCompleted)
    ensures forall i, j :: 0 <= i < j < |r| ==> InstanceCompare(r[i], r[j]) <= 0
  {
    var instances: seq<TaskInstance> := [];
    for i := 0 to |tasks|
      invariant instances == Collected(tasks[..i], start, end, completed)
    {
      var taskInstances := ExpandRecurringTask(tasks[i], start, end, completed);
      assert taskInstances == Expander(start, end, completed)(tasks[i]);
      assert tasks[..i + 1][..i] == tasks[..i];
      instances := instances + taskInstances;
    }
    assert tasks[..|tasks|] == tasks;
    var filtered := if hideCompleted then Pending(instances) else instances;
    r := SortBy(filtered, InstanceKey);
    CollectedMembers(tasks, start, end, completed);
    assert forall x :: x in r <==> x in filtered by {
      forall x ensures x in r <==> x in filtered {
        assert x in r <==> x in multiset(r);
        assert x in filtered <==> x in multiset(filtered);
      }
    }
    forall i, j | 0 <= i < j < |r| ensures InstanceCompare(r[i], r[j]) <= 0 {
      SortedOrdered(r, InstanceKey, i, j);
      InstanceKeyAgrees(r[i], r[j]);
    }
  }

  // ----- groupTasksByDate -----

  /** The key an instance is grouped under: its UTC date. */
  function DayKey(x: TaskInstance): string {
    FormatDateKey(x.instanceDate)
  }

  /** The elements of `s` whose key is `k`, in their order in `s`. */
  function WithKey<T>(s: seq<T>, key: T -> string, k: string): seq<T> {
    if s == [] then []
    else WithKey(s[..|s| - 1], key, k) + (if key(s[|s| - 1]) == k then [s[|s| - 1]] else [])
  }

  /** A group holds exactly the elements with its key. */
  lemma {:induction false} WithKeyMembers<T(!new)>(s: seq<T>, key: T -> string, k: string)
    ensures forall x :: x in WithKey(s, key, k) <==> x in s && key(x) == k
  {
    if s != [] {
      var init := s[..|s| - 1];
      WithKeyMembers(init, key, k);
      assert s == init + [s[|s| - 1]];
    }
  }

  /** Appending an element extends its own group and no other. */
  lemma WithKeyAppend<T>(s: seq<T>, x: T, key: T -> string, k: string)
    ensures WithKey(s + [x], key, k) == WithKey(s, key, k) + (if key(x) == k then [x] else [])
  {
    assert (s + [x])[..|s|] == s;
  }

  /** A group holds each element with its key as often as `s` does. */
  lemma {:induction false} WithKeyCount<T>(s: seq<T>, key: T -> string, k: string, x: T)
    ensures multiset(WithKey(s, key, k))[x] == if key(x) == k then multiset(s)[x] else 0
  {
    if s != [] {
      var init := s[..|s| - 1];
      WithKeyCount(init, key, k, x);
      assert s == init + [s[|s| - 1]];
    }
  }

  /** A group is non-empty exactly when some element carries its key. */
  lemma WithKeyNonEmpty<T(!new)>(s: seq<T>, key: T -> string, k: string)
    ensures WithKey(s, key, k) != [] <==> exists i :: 0 <= i < |s| && key(s[i]) == k
  {
    WithKeyMembers(s, key, k);
    if WithKey(s, key, k) != [] {
      var y := WithKey(s, key, k)[0];
      assert y in WithKey(s, key, k);
      var j :| 0 <= j < |s| && s[j] == y;
    } else {
      forall i | 0 <= i < |s| ensures key(s[i]) != k {
        assert s[i] in s;
      }
    }
  }

  /**
   * The loop of groupTasksByDate with its key function as a parameter: each
   * element is appended to the list of its key, which is created on first use.
   */
  method GroupBy<T(!new)>(instances: seq<T>, keyOf: T -> string) returns (grouped: map<string, seq<T>>)
    ensures forall k :: k in grouped <==> exists i :: 0 <= i < |instances| && keyOf(instances[i]) == k
    ensures forall k :: k in grouped ==> grouped[k] == WithKey(instances, keyOf, k)
    ensures forall x :: x in instances ==> keyOf(x) in grouped && multiset(grouped[keyOf(x)])[x] == multiset(instances)[x]
  {
    grouped := map[];
    for i := 0 to |instances|
      invariant forall k :: k in grouped <==> WithKey(instances[..i], keyOf, k) != []
      invariant forall k :: k in grouped ==> grouped[k] == WithKey(instances[..i], keyOf, k)
    {
      var x := instances[i];
      var key := keyOf(x);
      var existing := if key in grouped then grouped[key] else [];
      assert instances[..i + 1] == instances[..i] + [x];
      forall k ensures WithKey(instances[..i + 1], keyOf, k)
        == WithKey(instances[..i], keyOf, k) + (if keyOf(x) == k then [x] else [])
      {
        WithKeyAppend(instances[..i], x, keyOf, k);
      }
      grouped := grouped[key := existing + [x]];
    }
    assert instances[..|instances|] == instances;
    forall k ensures k in grouped <==> exists i :: 0 <= i < |instances| && keyOf(instances[i]) == k {
      WithKeyNonEmpty(instances, keyOf, k);
    }
    forall x | x in instances
      ensures keyOf(x) in grouped && multiset(grouped[keyOf(x)])[x] == multiset(instances)[x]
    {
      GroupCount(instances, keyOf, grouped, x);
    }
  }

  /** groupTasksByDate(instances): a map from day key to that day's instances, in input order. */
  method GroupTasksByDate(instances: seq<TaskInstance>) returns (grouped: map<string, seq<TaskInstance>>)
    ensures forall k :: k in grouped <==> exists i :: 0 <= i < |instances| && DayKey(instances[i]) == k
    ensures forall k :: k in grouped ==> grouped[k] == WithKey(instances, DayKey, k)
    ensures forall x :: x in instances ==> DayKey(x) in grouped && multiset(grouped[DayKey(x)])[x] == multiset(instances)[x]
  {
    grouped := GroupBy(instances, DayKey);
  }

  /**
   * Each instance sits in the group of its own day and nowhere else, and each
   * group holds only instances of its day.
   */
  lemma GroupsPartition(instances: seq<TaskInstance>, grouped: map<string, seq<TaskInstance>>)
    requires forall k :: k in grouped ==> grouped[k] == WithKey(instances, DayKey, k)
    ensures forall k, x :: k in grouped && x in grouped[k] ==> x in instances && DayKey(x) == k
    ensures forall x :: x in instances && DayKey(x) in grouped ==> x in grouped[DayKey(x)]
  {
    forall k | k in grouped {
      WithKeyMembers(instances, DayKey, k);
    }
  }

  /** GroupBy loses and doubles nothing: each element is in its own key's group as often as in the input. */
  lemma GroupCount<T>(s: seq<T>, key: T -> string, grouped: map<string, seq<T>>, x: T)
    requires forall k :: k in grouped <==> exists i :: 0 <= i < |s| && key(s[i]) == k
    requires forall k :: k in grouped ==> grouped[k] == WithKey(s, key, k)
    ensures x in s ==> key(x) in grouped && multiset(grouped[key(x)])[x] == multiset(s)[x]
    ensures forall k :: k in grouped && k != key(x) ==> multiset(grouped[k])[x] == 0
  {
    if x in s {
      var i :| 0 <= i < |s| && s[i] == x;
      WithKeyCount(s, key, key(x), x);
    }
    forall k | k in grouped && k != key(x) ensures multiset(grouped[k])[x] == 0 {
      WithKeyCount(s, key, k, x);
    }
  }

  // ----- getDateRange -----

  /** getDateRange(start, end): local midnight of each day from start's day through end's day. */
  method GetDateRange(start: int, end: int, tz: int) returns (dates: seq<int>)
    ensures |dates| == if LocalDay(start, tz) <= LocalDay(end, tz) then LocalDay(end, tz) - LocalDay(start, tz) + 1 else 0
    ensures forall k :: 0 <= k < |dates| ==>
      LocalDay(dates[k], tz) == LocalDay(start, tz) + k && LocalTimeOfDay(dates[k], tz) == 0
  {
    var current := SetHours(start, tz, 0, 0, 0, 0);
    var last := SetHours(end, tz, 0, 0, 0, 0);
    ghost var d0 := LocalDay(start, tz);
    ghost var d1 := LocalDay(end, tz);
    dates := [];
    while current <= last
      invariant current == FromLocal(d0 + |dates|, 0, tz)
      invariant |dates| <= if d0 <= d1 then d1 - d0 + 1 else 0
      invariant forall k :: 0 <= k < |dates| ==> dates[k] == FromLocal(d0 + k, 0, tz)
      decreases last - current
    {
      dates := dates + [current];
      FromLocalParts(d0 + |dates| - 1, 0, tz);
      ShiftDays(current, tz, 1);
      current := SetDate(current, tz, GetDate(current, tz) + 1);
    }
    forall k | 0 <= k < |dates|
      ensures LocalDay(dates[k], tz) == d0 + k && LocalTimeOfDay(dates[k], tz) == 0
    {
      FromLocalParts(d0 + k, 0, tz);
    }
  }

  // ----- Bounds -----

  /** A `{ start, end }` pair of time values. */
  datatype Bounds = Bounds(start: int, end: int)

  /** Days to add to reach the Monday on or before a day with getDay() `day`. */
  function ToMonday(day: int): int {
    if day == 0 then -6 else 1 - day
  }

  /** Days to add to reach the Sunday on or after a day with getDay() `day`. */
  function ToSunday(day: int): int {
    if day == 0 then 0 else 7 - day
  }

  /** The local day `ToMonday(getDay())` days from `t` is a Monday at most six days earlier. */
  lemma MondayOnOrBefore(t: int, tz: int)
    ensures var n := LocalDay(t, tz);
      n - 6 <= n + ToMonday(GetDay(t, tz)) <= n && Civil.Weekday(n + ToMonday(GetDay(t, tz))) == 1
  {
  }

  /** The local day `ToSunday(getDay())` days from `t` is a Sunday at most six days later. */
  lemma SundayOnOrAfter(t: int, tz: int)
    ensures var n := LocalDay(t, tz);
      n <= n + ToSunday(GetDay(t, tz)) <= n + 6 && Civil.Weekday(n + ToSunday(GetDay(t, tz))) == 0
  {
  }

  /** getWeekBounds(date): Monday 00:00:00.000 through Sunday 23:59:59.999 of the local week. */
  function WeekBounds(t: int, tz: int): Bounds {
    var diff := ToMonday(GetDay(t, tz));
    var start := SetHours(SetDate(t, tz, GetDate(t, tz) + diff), tz, 0, 0, 0, 0);
    var end := SetHours(SetDate(start, tz, GetDate(start, tz) + 6), tz, 23, 59, 59, 999);
    Bounds(start, end)
  }

  /** Whole local days `first` through `last`, from midnight to the last millisecond. */
  predicate SpansDays(b: Bounds, tz: int, first: int, last: int) {
    b.start == FromLocal(first, 0, tz) && b.end == FromLocal(last, LastMsOfDay, tz)
  }

  /** `t` lies within the whole local days `first` through `last` when its own day does. */
  lemma WithinDays(t: int, tz: int, first: int, last: int)
    requires first <= LocalDay(t, tz) <= last
    ensures FromLocal(first, 0, tz) <= t <= FromLocal(last, LastMsOfDay, tz)
  {
    LocalParts(t, tz);
    FromLocalOrder(first, 0, LocalDay(t, tz), LocalTimeOfDay(t, tz), tz);
    FromLocalOrder(LocalDay(t, tz), LocalTimeOfDay(t, tz), last, LastMsOfDay, tz);
  }

  /** The steps of getWeekBounds, one setter at a time. */
  lemma WeekBoundsSteps(t: int, tz: int)
    ensures var b := WeekBounds(t, tz);
      b.start == SetHours(SetDate(t, tz, GetDate(t, tz) + ToMonday(GetDay(t, tz))), tz, 0, 0, 0, 0)
      && b.end == SetHours(SetDate(b.start, tz, GetDate(b.start, tz) + 6), tz, 23, 59, 59, 999)
  {
  }

  /** The week of a date: the seven days from the Monday on or before it. */
  lemma WeekBoundsSpec(t: int, tz: int)
    ensures var b := WeekBounds(t, tz);
      var monday := LocalDay(t, tz) + ToMonday(GetDay(t, tz));
      SpansDays(b, tz, monday, monday + 6)
      && Civil.Weekday(monday) == 1
      && monday <= LocalDay(t, tz) <= monday + 6
      && b.start <= t <= b.end
  {
    var b := WeekBounds(t, tz);
    var monday := LocalDay(t, tz) + ToMonday(GetDay(t, tz));
    WeekBoundsSteps(t, tz);
    ShiftedMidnight(t, tz, ToMonday(GetDay(t, tz)));
    assert b.start == FromLocal(monday, 0, tz);
    FromLocalParts(monday, 0, tz);
    ShiftedEndOfDay(b.start, tz, 6);
    assert LocalDay(b.start, tz) == monday;
    assert LocalDay(b.start, tz) + 6 == monday + 6;
    assert b.end == FromLocal(monday + 6, LastMsOfDay, tz);
    MondayOnOrBefore(t, tz);
    WithinDays(t, tz, monday, monday + 6);
  }

  /** The week of a date starts on the local day `ToMonday` days from it. */
  lemma WeekStartDay(t: int, tz: int)
    ensures LocalDay(WeekBounds(t, tz).start, tz) == LocalDay(t, tz) + ToMonday(GetDay(t, tz))
  {
    WeekBoundsSpec(t, tz);
    FromLocalParts(LocalDay(t, tz) + ToMonday(GetDay(t, tz)), 0, tz);
  }

  /** A date whole weeks later has its week as many weeks later. */
  lemma WeekBoundsShift(t: int, u: int, tz: int, weeks: int)
    requires LocalDay(u, tz) == LocalDay(t, tz) + 7 * weeks
    ensures LocalDay(WeekBounds(u, tz).start, tz) == LocalDay(WeekBounds(t, tz).start, tz) + 7 * weeks
  {
    var n := LocalDay(t, tz);
    assert Civil.Weekday(n + 7 * weeks) == Civil.Weekday(n);
    assert GetDay(u, tz) == GetDay(t, tz);
    WeekStartDay(t, tz);
    WeekStartDay(u, tz);
  }

  /** getMonthBounds(date): the first day 00:00 through the last day 23:59:59.999 of the local month. */
  function MonthBounds(t: int, tz: int): Bounds {
    var start := SetHours(NewDate(tz, GetFullYear(t, tz), GetMonth(t, tz), 1), tz, 0, 0, 0, 0);
    var end := SetHours(NewDate(tz, GetFullYear(t, tz), GetMonth(t, tz) + 1, 0), tz, 23, 59, 59, 999);
    Bounds(start, end)
  }

  /**
   * The month of a date: the first through the last day of its month in year
   * FullYear(y), since `new Date(y, m, 1)` reads a year y from 0 through 99
   * as 1900 + y. Outside those years the bounds bracket the date.
   */
  lemma MonthBoundsSpec(t: int, tz: int)
    ensures var c := CivilOf(LocalDay(t, tz));
      var y := FullYear(c.year);
      ValidYmd(Ymd(y, c.month, 1)) && ValidYmd(Ymd(y, c.month, DaysInMonth(y, c.month)))
      && SpansDays(MonthBounds(t, tz), tz,
           DayNumber(Ymd(y, c.month, 1)), DayNumber(Ymd(y, c.month, DaysInMonth(y, c.month))))
      && (!(0 <= c.year <= 99) ==> MonthBounds(t, tz).start <= t <= MonthBounds(t, tz).end)
  {
    var c := CivilOf(LocalDay(t, tz));
    var y := FullYear(c.year);
    var first := Ymd(y, c.month, 1);
    var lastDay := Ymd(y, c.month, DaysInMonth(y, c.month));
    assert GetFullYear(t, tz) == c.year && GetMonth(t, tz) == c.month - 1;
    assert GetMonth(t, tz) + 1 == c.month;
    NewDateDay(tz, c.year, c.month - 1, 1);
    NewDateDay(tz, c.year, c.month, 0);
    MakeDayOffset(first, 1);
    MakeDayZero(y, c.month);
    assert MonthBounds(t, tz).start == FromLocal(DayNumber(first), 0, tz);
    assert MonthBounds(t, tz).end == FromLocal(DayNumber(lastDay), LastMsOfDay, tz);
    if !(0 <= c.year <= 99) {
      MakeDayOffset(c, 1);
      assert DayNumber(first) <= LocalDay(t, tz) <= DayNumber(lastDay);
      WithinDays(t, tz, DayNumber(first), DayNumber(lastDay));
    }
  }

  /** Every instant of a local day before day `a` comes before midnight of `a`. */
  lemma BeforeDay(t: int, tz: int, a: int)
    requires LocalDay(t, tz) < a
    ensures t < FromLocal(a, 0, tz)
  {
    LocalParts(t, tz);
    FromLocalOrder(LocalDay(t, tz), LocalTimeOfDay(t, tz), a - 1, LastMsOfDay, tz);
  }

  /** Any day of year y is more than a week before any day of year 1900 + y or later. */
  lemma CenturiesLater(c: Ymd, d: Ymd)
    requires ValidYmd(c) && ValidYmd(d) && c.year + 1900 <= d.year
    ensures DayNumber(c) + 7 < DayNumber(d)
  {
    DaysBeforeNextMonth(c.year, c.month);
    DaysBeforeMonthMonotone(c.year, c.month + 1, 13);
    DaysBeforeYearStep(c.year);
    DaysBeforeYearMonotone(c.year + 1, d.year);
    DaysBeforeMonthMonotone(d.year, 1, d.month);
  }

  /**
   * For a date in local years 0 through 99 the month's bounds lie 1900 years
   * later and do not hold the date: 0050-03-15 gets the bounds of March 1950.
   */
  lemma MonthBoundsTwoDigitYear(t: int, tz: int)
    requires 0 <= GetFullYear(t, tz) <= 99
    ensures LocalDay(t, tz) + 7 < LocalDay(MonthBounds(t, tz).start, tz)
    ensures t < MonthBounds(t, tz).start
  {
    var c := CivilOf(LocalDay(t, tz));
    var first := Ymd(1900 + c.year, c.month, 1);
    MonthBoundsSpec(t, tz);
    CenturiesLater(c, first);
    FromLocalParts(DayNumber(first), 0, tz);
    BeforeDay(t, tz, DayNumber(first));
  }

  /** The padding of getMonthDisplayBounds: out to the Monday before `ms` and the Sunday after `me`. */
  function PadToWeeks(ms: int, me: int, tz: int): Bounds {
    var startDiff := ToMonday(GetDay(ms, tz));
    var start := SetHours(SetDate(ms, tz, GetDate(ms, tz) + startDiff), tz, 0, 0, 0, 0);
    var endDiff := ToSunday(GetDay(me, tz));
    var end := SetHours(SetDate(me, tz, GetDate(me, tz) + endDiff), tz, 23, 59, 59, 999);
    Bounds(start, end)
  }

  /** getMonthDisplayBounds(date): the month widened to whole Monday-to-Sunday weeks. */
  function MonthDisplayBounds(t: int, tz: int): Bounds {
    var month := MonthBounds(t, tz);
    PadToWeeks(month.start, month.end, tz)
  }

  /** A Monday through a Sunday is a whole number of weeks. */
  lemma MondayToSunday(a: int, b: int)
    requires Civil.Weekday(a) == 1 && Civil.Weekday(b) == 0
    ensures (b - a + 1) % 7 == 0
  {
  }

  /** The padded range runs from a Monday through a Sunday: whole weeks. */
  lemma PadWholeWeeks(ms: int, me: int, tz: int)
    ensures var a := LocalDay(ms, tz) + ToMonday(GetDay(ms, tz));
      var b := LocalDay(me, tz) + ToSunday(GetDay(me, tz));
      (b - a + 1) % 7 == 0
  {
    MondayOnOrBefore(ms, tz);
    SundayOnOrAfter(me, tz);
    MondayToSunday(LocalDay(ms, tz) + ToMonday(GetDay(ms, tz)), LocalDay(me, tz) + ToSunday(GetDay(me, tz)));
  }

  /** The padded range starts at midnight of the Monday on or before the day of `ms`. */
  lemma PadStart(ms: int, me: int, tz: int)
    ensures var a := LocalDay(ms, tz) + ToMonday(GetDay(ms, tz));
      PadToWeeks(ms, me, tz).start == FromLocal(a, 0, tz)
      && LocalDay(ms, tz) - 6 <= a <= LocalDay(ms, tz) && Civil.Weekday(a) == 1
  {
    PadStartStep(ms, me, tz);
    ShiftedMidnight(ms, tz, ToMonday(GetDay(ms, tz)));
    MondayOnOrBefore(ms, tz);
  }

  /** The padded range ends at the last millisecond of the Sunday on or after the day of `me`. */
  lemma PadEnd(ms: int, me: int, tz: int)
    ensures var b := LocalDay(me, tz) + ToSunday(GetDay(me, tz));
      PadToWeeks(ms, me, tz).end == FromLocal(b, LastMsOfDay, tz)
      && LocalDay(me, tz) <= b <= LocalDay(me, tz) + 6 && Civil.Weekday(b) == 0
  {
    PadEndStep(ms, me, tz);
    ShiftedEndOfDay(me, tz, ToSunday(GetDay(me, tz)));
    SundayOnOrAfter(me, tz);
  }

  lemma PadStartStep(ms: int, me: int, tz: int)
    ensures PadToWeeks(ms, me, tz).start
      == SetHours(SetDate(ms, tz, GetDate(ms, tz) + ToMonday(GetDay(ms, tz))), tz, 0, 0, 0, 0)
  {
  }

  lemma PadEndStep(ms: int, me: int, tz: int)
    ensures PadToWeeks(ms, me, tz).end
      == SetHours(SetDate(me, tz, GetDate(me, tz) + ToSunday(GetDay(me, tz))), tz, 23, 59, 59, 999)
  {
  }

  /** The month view of a date holds the whole month, and so the date outside local years 0 through 99. */
  lemma MonthDisplayBoundsHoldMonth(t: int, tz: int)
    ensures var m, v := MonthBounds(t, tz), MonthDisplayBounds(t, tz);
      v.start <= m.start && m.end <= v.end
      && (!(0 <= GetFullYear(t, tz) <= 99) ==> v.start <= t <= v.end)
  {
    var m := MonthBounds(t, tz);
    MonthBoundsSpec(t, tz);
    PadStart(m.start, m.end, tz);
    PadEnd(m.start, m.end, tz);
    var first, last := LocalDay(m.start, tz), LocalDay(m.end, tz);
    LocalParts(m.start, tz);
    LocalParts(m.end, tz);
    FromLocalOrder(first + ToMonday(GetDay(m.start, tz)), 0, first, LocalTimeOfDay(m.start, tz), tz);
    FromLocalOrder(last, LocalTimeOfDay(m.end, tz), last + ToSunday(GetDay(m.end, tz)), LastMsOfDay, tz);
  }

  /** Nor does the display range of such a month hold the date. */
  lemma MonthDisplayTwoDigitYear(t: int, tz: int)
    requires 0 <= GetFullYear(t, tz) <= 99
    ensures t < MonthDisplayBounds(t, tz).start
  {
    var m := MonthBounds(t, tz);
    MonthBoundsTwoDigitYear(t, tz);
    PadStart(m.start, m.end, tz);
    BeforeDay(t, tz, LocalDay(m.start, tz) + ToMonday(GetDay(m.start, tz)));
  }

  /** getYearBounds(date): January 1 00:00 through December 31 23:59:59.999 of the local year. */
  function YearBounds(t: int, tz: int): Bounds {
    var start := SetHours(NewDate(tz, GetFullYear(t, tz), 0, 1), tz, 0, 0, 0, 0);
    var end := SetHours(NewDate(tz, GetFullYear(t, tz), 11, 31), tz, 23, 59, 59, 999);
    Bounds(start, end)
  }

  /** January 1 and December 31 of a date's year bracket it. */
  lemma WithinYear(c: Ymd)
    requires ValidYmd(c)
    ensures ValidYmd(Ymd(c.year, 1, 1)) && ValidYmd(Ymd(c.year, 12, 31))
    ensures DayNumber(Ymd(c.year, 1, 1)) <= DayNumber(c) <= DayNumber(Ymd(c.year, 12, 31))
  {
    DaysBeforeNextMonth(c.year, c.month);
    DaysBeforeMonthMonotone(c.year, c.month + 1, 13);
    DaysBeforeNextMonth(c.year, 12);
  }

  /** YearBounds spans January 1 through December 31 of year FullYear(y). */
  lemma YearBoundsDays(t: int, tz: int, y: int)
    requires y == GetFullYear(t, tz)
    ensures var fy := FullYear(y);
      ValidYmd(Ymd(fy, 1, 1)) && ValidYmd(Ymd(fy, 12, 31))
      && SpansDays(YearBounds(t, tz), tz, DayNumber(Ymd(fy, 1, 1)), DayNumber(Ymd(fy, 12, 31)))
  {
    var fy := FullYear(y);
    var jan1, dec31 := Ymd(fy, 1, 1), Ymd(fy, 12, 31);
    MakeDayOffset(jan1, 1);
    MakeDayOffset(dec31, 31);
    var s0 := NewDate(tz, y, 0, 1);
    var e0 := NewDate(tz, y, 11, 31);
    FromLocalParts(DayNumber(jan1), 0, tz);
    FromLocalParts(DayNumber(dec31), 0, tz);
    SetHoursDay(s0, tz);
    SetHoursDay(e0, tz);
    assert YearBounds(t, tz) == Bounds(SetHours(s0, tz, 0, 0, 0, 0), SetHours(e0, tz, 23, 59, 59, 999));
  }

  /**
   * The year of a date: January 1 through December 31 of year FullYear(y),
   * which bracket the date outside local years 0 through 99.
   */
  lemma YearBoundsSpec(t: int, tz: int)
    ensures var y := GetFullYear(t, tz);
      var fy := FullYear(y);
      ValidYmd(Ymd(fy, 1, 1)) && ValidYmd(Ymd(fy, 12, 31))
      && SpansDays(YearBounds(t, tz), tz, DayNumber(Ymd(fy, 1, 1)), DayNumber(Ymd(fy, 12, 31)))
      && (!(0 <= y <= 99) ==> YearBounds(t, tz).start <= t <= YearBounds(t, tz).end)
  {
    var c := CivilOf(LocalDay(t, tz));
    YearBoundsDays(t, tz, c.year);
    if !(0 <= c.year <= 99) {
      WithinYear(c);
      WithinDays(t, tz, DayNumber(Ymd(c.year, 1, 1)), DayNumber(Ymd(c.year, 12, 31)));
    }
  }

  /** For a date in local years 0 through 99 the year's bounds lie 1900 years later. */
  lemma YearBoundsTwoDigitYear(t: int, tz: int)
    requires 0 <= GetFullYear(t, tz) <= 99
    ensures t < YearBounds(t, tz).start
  {
    var c := CivilOf(LocalDay(t, tz));
    var jan1 := Ymd(1900 + c.year, 1, 1);
    YearBoundsDays(t, tz, c.year);
    CenturiesLater(c, jan1);
    BeforeDay(t, tz, DayNumber(jan1));
  }

  // ----- isSameDay -----

  /** isSameDay(a, b): same local year, month and day of month; that is, the same local day. */
  function IsSameDay(a: int, b: int, tz: int): (r: bool)
    ensures r <==> LocalDay(a, tz) == LocalDay(b, tz)
  {
    CivilOfInjective(LocalDay(a, tz), LocalDay(b, tz));
    GetFullYear(a, tz) == GetFullYear(b, tz) && GetMonth(a, tz) == GetMonth(b, tz) && GetDate(a, tz) == GetDate(b, tz)
  }
}
