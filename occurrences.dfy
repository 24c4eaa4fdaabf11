/**
 * The occurrences of a recurrence rule anchored at a start instant, as
 * rrule's `between(lo, hi, true)` yields them. rrule works on UTC fields:
 * every occurrence falls on a UTC day chosen by the rule and carries the
 * start's UTC time of day. When a rule names neither weekdays nor month
 * days, rrule takes them from the start (a weekly rule repeats on the
 * start's weekday, a monthly rule on its day of the month, a yearly rule on
 * its month and day). Weeks start on Monday, rrule's default.
 */
module Occurrences {
  import opened Civil
  import opened JsDate
  import opened RRule
  import opened DateKey

  /** rrule's weekday of a day number. */
  function WeekdayOfDay(n: int): Weekday {
    [SU, MO, TU, WE, TH, FR, SA][Civil.Weekday(n)]
  }

  /** Index of the Monday-based week holding day `n`. */
  function WeekIndex(n: int): int {
    (n + 3) / 7
  }

  /** Index of the calendar month holding day `n`, counted from year 0. */
  function MonthIndex(n: int): int {
    12 * CivilOf(n).year + CivilOf(n).month - 1
  }

  function IntervalOf(o: Options): int {
    if o.interval.Some? then o.interval.value else 1
  }

  /** Month day `v` (negative counts from the end of the month) names day `n`. */
  predicate MonthDayMatches(v: int, n: int) {
    var c := CivilOf(n);
    v == c.day || v == c.day - DaysInMonth(c.year, c.month) - 1
  }

  /** Day `n` is one the rule selects, for a start on day `n0`. */
  predicate DayMatches(o: Options, n0: int, n: int)
    requires o.freq.Some?
  {
    if o.byweekday == [] && o.bymonthday == [] then
      match o.freq.value
      case Daily => true
      case Weekly => Civil.Weekday(n) == Civil.Weekday(n0)
      case Monthly => CivilOf(n).day == CivilOf(n0).day
      case Yearly => CivilOf(n).month == CivilOf(n0).month && CivilOf(n).day == CivilOf(n0).day
    else
      (o.byweekday == [] || WeekdayOfDay(n) in o.byweekday)
      && (o.bymonthday == [] || exists i :: 0 <= i < |o.bymonthday| && MonthDayMatches(o.bymonthday[i], n))
  }

  /** Day `n` lies in a period (day, week, month or year) the interval keeps. */
  predicate InPhase(o: Options, n0: int, n: int)
    requires o.freq.Some?
  {
    var i := IntervalOf(o);
    match o.freq.value
    case Daily => (n - n0) % i == 0
    case Weekly => (WeekIndex(n) - WeekIndex(n0)) % i == 0
    case Monthly => (MonthIndex(n) - MonthIndex(n0)) % i == 0
    case Yearly => (CivilOf(n).year - CivilOf(n0).year) % i == 0
  }

  /** `t` is an occurrence of the rule `o` started at `dtstart`. */
  predicate IsOccurrence(o: Options, dtstart: int, t: int)
    requires o.freq.Some?
  {
    dtstart <= t
    && t % MsPerDay == dtstart % MsPerDay
    && DayMatches(o, UtcDay(dtstart), UtcDay(t))
    && InPhase(o, UtcDay(dtstart), UtcDay(t))
  }

  /** Each element is smaller than the next. */
  predicate StrictlyIncreasing(s: seq<int>) {
    forall k :: 0 <= k < |s| - 1 ==> s[k] < s[k + 1]
  }

  lemma {:induction false} IncreasingOrdered(s: seq<int>, j: int, k: int)
    requires StrictlyIncreasing(s) && 0 <= j < k < |s|
    ensures s[j] < s[k]
    decreases k - j
  {
    if j + 1 < k {
      IncreasingOrdered(s, j + 1, k);
    }
  }

  /**
   * The instants of UTC days `n` through `last` at time of day `tod` that
   * `keep` accepts, in time order.
   */
  function Scan(keep: int -> bool, tod: int, n: int, last: int): (r: seq<int>)
    requires 0 <= tod < MsPerDay
    ensures StrictlyIncreasing(r)
    ensures forall k :: 0 <= k < |r| ==> n * MsPerDay <= r[k]
    decreases last - n
  {
    if n > last then []
    else
      var t := n * MsPerDay + tod;
      var rest := Scan(keep, tod, n + 1, last);
      if keep(t) then [t] + rest else rest
  }

  /** Scan finds exactly the accepted instants at that time of day on days `n` through `last`. */
  lemma {:induction false} ScanMembers(keep: int -> bool, tod: int, n: int, last: int)
    requires 0 <= tod < MsPerDay
    ensures forall t :: t in Scan(keep, tod, n, last) <==>
      n <= UtcDay(t) <= last && t % MsPerDay == tod && keep(t)
    decreases last - n
  {
    if n <= last {
      ScanMembers(keep, tod, n + 1, last);
    }
  }

  /** `rule.between(lo, hi, true)` for the rule `o` with start `dtstart`. */
  function Between(o: Options, dtstart: int, lo: int, hi: int): (r: seq<int>)
    requires o.freq.Some?
    ensures StrictlyIncreasing(r)
    ensures forall t :: t in r <==> lo <= t <= hi && IsOccurrence(o, dtstart, t)
  {
    var keep := t => lo <= t <= hi && o.freq.Some? && IsOccurrence(o, dtstart, t);
    var tod := dtstart % MsPerDay;
    assert forall t :: lo <= t <= hi ==> UtcDay(lo) <= UtcDay(t) <= UtcDay(hi) by {
      forall t | lo <= t <= hi ensures UtcDay(lo) <= UtcDay(t) <= UtcDay(hi) {
        LocalDayMonotone(lo, t, 0);
        LocalDayMonotone(t, hi, 0);
      }
    }
    ScanMembers(keep, tod, UtcDay(lo), UtcDay(hi));
    Scan(keep, tod, UtcDay(lo), UtcDay(hi))
  }
}
