/**
 * RecurrenceService: turning a task into the calendar instances that fall in
 * a window, and describing a rule to the user in Spanish or English.
 */
module Recurrence {
  import opened Wrappers
  import opened Text
  import opened JsDate
  import opened RRule
  import opened Occurrences
  import opened DateKey
  import opened Types

  /** `!task.recurrence_rule` is false: the rule is present and not empty. */
  predicate HasRule(task: Task) {
    task.recurrenceRule.Some? && task.recurrenceRule.value != ""
  }

  /** The options of `RRule.fromString(rule)`, or `None` when rrule throws (a rule without FREQ included). */
  function RuleOptions(rule: string): (r: Option<Options>)
    ensures r.Some? ==> r.value.freq.Some?
  {
    match Parse(rule)
    case Success(o) => if o.freq.Some? then Some(o) else None
    case Failure(_) => None
  }

  /** The rule's start: the due date, or the creation time when there is none. */
  function Anchor(task: Task): int {
    task.dueDate.GetOr(task.createdAt)
  }

  /** The one instance of a task without a rule, on its due date. */
  function SingleInstance(task: Task, due: int): TaskInstance {
    TaskInstance(task.id, task.id, task.title, task.priority, due, false, None, task.status == Completed)
  }

  /** The instance of a recurring task on occurrence `date`; its id is the completion key of that date. */
  function OccurrenceInstance(task: Task, date: int, completed: set<string>): TaskInstance {
    var id := CreateCompletionKey(task.id, DateValue(date));
    TaskInstance(id, task.id, task.title, task.priority, date, true, task.recurrenceRule, id in completed)
  }

  /** `occurrences.map(...)`. */
  function OccurrenceInstances(task: Task, dates: seq<int>, completed: set<string>): (r: seq<TaskInstance>)
    ensures |r| == |dates|
    ensures forall i :: 0 <= i < |dates| ==> r[i] == OccurrenceInstance(task, dates[i], completed)
  {
    seq(|dates|, i requires 0 <= i < |dates| => OccurrenceInstance(task, dates[i], completed))
  }

  /** expandRecurringTask(task, start, end, completed). */
  function ExpandRecurringTask(task: Task, start: int, end: int, completed: set<string>): (r: seq<TaskInstance>)
    ensures !HasRule(task) ==> |r| <= 1
    ensures HasRule(task) && RuleOptions(task.recurrenceRule.value).None? ==> r == []
  {
    if !HasRule(task) then
      if task.dueDate.Some? && start <= task.dueDate.value <= end then [SingleInstance(task, task.dueDate.value)]
      else []
    else
      match RuleOptions(task.recurrenceRule.value)
      case None => []
      case Some(o) => OccurrenceInstances(task, Between(o, Anchor(task), start, end), completed)
  }

  /** Without a rule: one instance, the task itself, exactly when its due date lies in the window. */
  lemma ExpandWithoutRule(task: Task, start: int, end: int, completed: set<string>)
    requires !HasRule(task)
    ensures var r := ExpandRecurringTask(task, start, end, completed);
      (|r| == 1 <==> task.dueDate.Some? && start <= task.dueDate.value <= end)
      && forall i :: 0 <= i < |r| ==>
        r[i].id == task.id && r[i].parentTaskId == task.id && r[i].title == task.title
        && r[i].priority == task.priority && r[i].instanceDate == task.dueDate.value
        && !r[i].isRecurring && r[i].recurrenceRule.None?
        && (r[i].isCompleted <==> task.status == Completed)
  {
  }

  /**
   * With a rule: every instance is an occurrence in the window, carries the
   * task's title, priority and rule, is named by the completion key of its
   * date and is completed exactly when that key was recorded.
   */
  lemma ExpandWithRule(task: Task, start: int, end: int, completed: set<string>, o: Options)
    requires HasRule(task) && RuleOptions(task.recurrenceRule.value) == Some(o)
    ensures var r := ExpandRecurringTask(task, start, end, completed);
      forall i :: 0 <= i < |r| ==>
        start <= r[i].instanceDate <= end && IsOccurrence(o, Anchor(task), r[i].instanceDate)
        && r[i].id == CreateCompletionKey(task.id, DateValue(r[i].instanceDate))
        && r[i].parentTaskId == task.id && r[i].title == task.title
        && r[i].priority == task.priority && r[i].isRecurring
        && r[i].recurrenceRule == task.recurrenceRule
        && (r[i].isCompleted <==> r[i].id in completed)
  {
    var dates := Between(o, Anchor(task), start, end);
    var r := ExpandRecurringTask(task, start, end, completed);
    assert r == OccurrenceInstances(task, dates, completed);
    forall i | 0 <= i < |r|
      ensures start <= r[i].instanceDate <= end && IsOccurrence(o, Anchor(task), r[i].instanceDate)
    {
      assert r[i].instanceDate == dates[i];
      assert dates[i] in dates;
    }
  }

  /** The occurrence dates of a recurring task in the window, in time order. */
  function InstanceDates(r: seq<TaskInstance>): (dates: seq<int>)
    ensures |dates| == |r|
    ensures forall i :: 0 <= i < |r| ==> dates[i] == r[i].instanceDate
  {
    if r == [] then [] else [r[0].instanceDate] + InstanceDates(r[1..])
  }

  /**
   * A recurring task's instances are exactly its rule's occurrences in the
   * window (both bounds included), in increasing time.
   */
  lemma ExpandCoversOccurrences(task: Task, start: int, end: int, completed: set<string>, o: Options)
    requires HasRule(task) && RuleOptions(task.recurrenceRule.value) == Some(o)
    ensures StrictlyIncreasing(InstanceDates(ExpandRecurringTask(task, start, end, completed)))
    ensures forall t :: t in InstanceDates(ExpandRecurringTask(task, start, end, completed)) <==>
      start <= t <= end && IsOccurrence(o, Anchor(task), t)
  {
    var dates := Between(o, Anchor(task), start, end);
    assert InstanceDates(ExpandRecurringTask(task, start, end, completed)) == dates;
  }

  /** A rule written out from its options expands to exactly that rule's occurrences. */
  lemma ExpandFormattedRule(task: Task, start: int, end: int, completed: set<string>, o: Options)
    requires WellFormed(o) && task.recurrenceRule == Some(Format(o))
    ensures HasRule(task)
    ensures forall t :: t in InstanceDates(ExpandRecurringTask(task, start, end, completed)) <==>
      start <= t <= end && IsOccurrence(o, Anchor(task), t)
  {
    ParseFormat(o);
    ExpandCoversOccurrences(task, start, end, completed, o);
  }

  /** Two instants at one time of day, the first earlier, lie on different UTC days. */
  lemma DifferentDays(a: int, b: int)
    requires a < b && a % MsPerDay == b % MsPerDay
    ensures UtcDay(a) < UtcDay(b)
  {
  }

  /** Both halves of a key of a given task: equal keys mean equal date strings. */
  lemma KeySuffix(id: string, d1: string, d2: string)
    requires CreateCompletionKey(id, DateString(d1)) == CreateCompletionKey(id, DateString(d2))
    ensures d1 == d2
  {
  }

  /** Two occurrences at one time of day on different days get different ids. */
  lemma DistinctDateIds(id: string, a: int, b: int)
    requires a < b && a % MsPerDay == b % MsPerDay
    requires InIsoYearRange(a) && InIsoYearRange(b)
    ensures CreateCompletionKey(id, DateValue(a)) != CreateCompletionKey(id, DateValue(b))
  {
    DifferentDays(a, b);
    FormatDateKeyInjective(a, b);
    CompletionKeyOfDate(id, a);
    CompletionKeyOfDate(id, b);
    if CreateCompletionKey(id, DateValue(a)) == CreateCompletionKey(id, DateValue(b)) {
      KeySuffix(id, FormatDateKey(a), FormatDateKey(b));
    }
  }

  /**
   * Instance ids are distinct (they key React lists and completions) while
   * the window stays within years 0..9999.
   */
  lemma ExpandIdsDistinct(task: Task, start: int, end: int, completed: set<string>)
    requires forall t :: start <= t <= end ==> InIsoYearRange(t)
    ensures var r := ExpandRecurringTask(task, start, end, completed);
      forall i, j :: 0 <= i < j < |r| ==> r[i].id != r[j].id
  {
    var r := ExpandRecurringTask(task, start, end, completed);
    if HasRule(task) && RuleOptions(task.recurrenceRule.value).Some? {
      var o := RuleOptions(task.recurrenceRule.value).value;
      var dates := InstanceDates(r);
      ExpandCoversOccurrences(task, start, end, completed, o);
      forall i, j | 0 <= i < j < |r| ensures r[i].id != r[j].id {
        var a, b := dates[i], dates[j];
        IncreasingOrdered(dates, i, j);
        assert a in dates && b in dates;
        DistinctDateIds(task.id, a, b);
      }
    }
  }

  // ----- formatRecurrenceForDisplay -----

  datatype Locale = Es | En

  /** DAY_NAMES and DAY_NAMES_EN. */
  function DayName(w: Weekday, locale: Locale): string {
    match locale
    case Es => (match w
      case MO => "lunes" case TU => "martes" case WE => "miércoles" case TH => "jueves"
      case FR => "viernes" case SA => "sábado" case SU => "domingo")
    case En => (match w
      case MO => "Monday" case TU => "Tuesday" case WE => "Wednesday" case TH => "Thursday"
      case FR => "Friday" case SA => "Saturday" case SU => "Sunday")
  }

  function DayNames(ws: seq<Weekday>, locale: Locale): (r: seq<string>)
    ensures |r| == |ws|
    ensures forall i :: 0 <= i < |ws| ==> r[i] == DayName(ws[i], locale)
  {
    if ws == [] then [] else [DayName(ws[0], locale)] + DayNames(ws[1..], locale)
  }

  /** "a", or "a, b y c" / "a, b and c". */
  function DayList(names: seq<string>, locale: Locale): string
    requires |names| >= 1
  {
    if |names| == 1 then names[0]
    else
      JoinStrings(names[..|names| - 1], ", ") + (if locale == Es then " y " else " and ") + names[|names| - 1]
  }

  /** `options.interval && options.interval > 1`. */
  predicate Repeats(o: Options) {
    o.interval.Some? && o.interval.value > 1
  }

  /** The text shown for a rule with a known frequency. */
  function Describe(o: Options, locale: Locale): (s: string)
    requires o.freq.Some?
    ensures |s| > 0
  {
    var es := locale == Es;
    match o.freq.value
    case Daily =>
      if Repeats(o) then
        var n := NatToString(o.interval.value);
        if es then "Cada " + n + " días" else "Every " + n + " days"
      else if es then "Todos los días" else "Every day"
    case Weekly =>
      if o.byweekday != [] then
        (if es then "Cada " else "Every ") + DayList(DayNames(o.byweekday, locale), locale)
      else if Repeats(o) then
        var n := NatToString(o.interval.value);
        if es then "Cada " + n + " semanas" else "Every " + n + " weeks"
      else if es then "Cada semana" else "Every week"
    case Monthly =>
      if o.bymonthday != [] then
        var d := IntToString(o.bymonthday[0]);
        if es then "El día " + d + " de cada mes" else "On day " + d + " of each month"
      else if Repeats(o) then
        var n := NatToString(o.interval.value);
        if es then "Cada " + n + " meses" else "Every " + n + " months"
      else if es then "Cada mes" else "Every month"
    case Yearly =>
      if es then "Cada año" else "Every year"
  }

  /** formatRecurrenceForDisplay(rruleStr, locale). */
  function FormatRecurrenceForDisplay(rule: Option<string>, locale: Locale): (s: string)
    ensures s == "" <==> rule.None? || rule.value == ""
    ensures rule.Some? && rule.value != "" && RuleOptions(rule.value).None? ==> s == rule.value
    ensures rule.Some? && RuleOptions(rule.value).Some? ==> s == Describe(RuleOptions(rule.value).value, locale)
  {
    if rule.None? || rule.value == "" then ""
    else
      match RuleOptions(rule.value)
      case Some(o) => Describe(o, locale)
      case None => rule.value
  }

  /** A rule written out from its options is described by those options. */
  lemma DisplayFormattedRule(o: Options, locale: Locale)
    requires WellFormed(o)
    ensures FormatRecurrenceForDisplay(Some(Format(o)), locale) == Describe(o, locale)
  {
    ParseFormat(o);
  }

  /** An interval of 1 reads the same as no interval. */
  lemma DescribeIntervalOne(o: Options, locale: Locale)
    requires o.freq.Some?
    ensures Describe(o.(interval := Some(1)), locale) == Describe(o.(interval := None), locale)
  {
  }

  /**
   * The weekday list and the month day take precedence: a weekly rule with
   * days, a monthly rule with month days and a yearly rule read the same
   * whatever their interval.
   */
  lemma DescribeIgnoresInterval(o: Options, i: Option<Interval>, locale: Locale)
    requires o.freq.Some?
    requires (o.freq.value == Weekly && o.byweekday != [])
      || (o.freq.value == Monthly && o.bymonthday != [])
      || o.freq.value == Yearly
    ensures Describe(o.(interval := i), locale) == Describe(o, locale)
  {
  }

  /** A monthly rule with month days is described by the first of them alone. */
  lemma DescribeMonthlyFirstDay(o: Options, locale: Locale)
    requires o.freq == Some(Monthly) && o.bymonthday != []
    ensures Describe(o.(bymonthday := [o.bymonthday[0]]), locale) == Describe(o, locale)
    ensures Describe(o, locale) != Describe(o.(bymonthday := []), locale)
  {
  }

  /** `x` occurs in `s`. */
  ghost predicate Contains(s: string, x: string) {
    exists p, q :: s == p + x + q
  }

  lemma ContainsMiddle(p: string, x: string, q: string)
    ensures Contains(p + x + q, x)
  {
  }

  /** What follows a text that contains `x` still contains it. */
  lemma ContainsAfter(head: string, s: string, x: string)
    requires Contains(s, x)
    ensures Contains(head + s, x)
  {
    var p, q :| s == p + x + q;
    assert head + s == (head + p) + x + q;
    ContainsMiddle(head + p, x, q);
  }

  /** The description of a weekly rule with days: "Every " and the day list. */
  lemma DescribeWeeklyDays(o: Options, locale: Locale)
    requires o.freq == Some(Weekly) && o.byweekday != []
    ensures Describe(o, locale) == (if locale == Es then "Cada " else "Every ") + DayList(DayNames(o.byweekday, locale), locale)
  {
  }

  /** Every chosen weekday's name appears in the description of a weekly rule. */
  lemma DescribeNamesEveryDay(o: Options, locale: Locale, k: int)
    requires o.freq == Some(Weekly) && 0 <= k < |o.byweekday|
    ensures Contains(Describe(o, locale), DayName(o.byweekday[k], locale))
  {
    var names := DayNames(o.byweekday, locale);
    DescribeWeeklyDays(o, locale);
    DayListHas(names, locale, k);
    ContainsAfter(if locale == Es then "Cada " else "Every ", DayList(names, locale), names[k]);
  }

  lemma DayListHas(names: seq<string>, locale: Locale, k: int)
    requires 0 <= k < |names|
    ensures Contains(DayList(names, locale), names[k])
  {
    var s := DayList(names, locale);
    if |names| == 1 {
      assert s == "" + names[k] + "";
      ContainsMiddle("", names[k], "");
    } else {
      var init := names[..|names| - 1];
      var conj := if locale == Es then " y " else " and ";
      if k == |names| - 1 {
        assert s == (JoinStrings(init, ", ") + conj) + names[k] + "";
        ContainsMiddle(JoinStrings(init, ", ") + conj, names[k], "");
      } else {
        JoinStringsHas(init, ", ", k);
        var p, q :| JoinStrings(init, ", ") == p + init[k] + q;
        assert s == p + names[k] + (q + conj + names[|names| - 1]);
        ContainsMiddle(p, names[k], q + conj + names[|names| - 1]);
      }
    }
  }

  lemma {:induction false} JoinStringsHas(parts: seq<string>, sep: string, k: int)
    requires 0 <= k < |parts|
    ensures Contains(JoinStrings(parts, sep), parts[k])
    decreases |parts|
  {
    var j := JoinStrings(parts, sep);
    if |parts| == 1 {
      assert j == "" + parts[k] + "";
      ContainsMiddle("", parts[k], "");
    } else if k == 0 {
      assert j == "" + parts[0] + (sep + JoinStrings(parts[1..], sep));
      ContainsMiddle("", parts[0], sep + JoinStrings(parts[1..], sep));
    } else {
      JoinStringsHas(parts[1..], sep, k - 1);
      ContainsAfter(parts[0] + sep, JoinStrings(parts[1..], sep), parts[k]);
      assert j == (parts[0] + sep) + JoinStrings(parts[1..], sep);
    }
  }

}
