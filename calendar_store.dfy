/**
 * The calendar store: the date the calendar shows, week or month view, and a
 * loading flag, with navigation by whole weeks or months and the derived
 * week, month and display bounds. The wall clock (`new Date()`) is a
 * parameter `now`; `tz` is the local time zone offset as in JsDate.
 */
module CalendarStore {
  import opened Civil
  import opened JsDate
  import opened CalendarService

  datatype ViewMode = WeekView | MonthView

  // ----- navigation -----

  /**
   * The date `k` steps from `t`: in the week view `setDate(getDate() + 7k)`,
   * in the month view `setMonth(getMonth() + k)`; goToNext takes `k = 1` and
   * goToPrevious `k = -1`.
   */
  function Stepped(t: int, mode: ViewMode, tz: int, k: int): int {
    match mode
    case WeekView => SetDate(t, tz, GetDate(t, tz) + 7 * k)
    case MonthView => SetMonth(t, tz, GetMonth(t, tz) + k)
  }

  /** A week step moves by exactly `7k` days of milliseconds, so by `7k` local days. */
  lemma WeekStep(t: int, tz: int, k: int)
    ensures Stepped(t, WeekView, tz, k) == t + 7 * k * MsPerDay
    ensures LocalDay(Stepped(t, WeekView, tz, k), tz) == LocalDay(t, tz) + 7 * k
  {
    ShiftDays(t, tz, 7 * k);
    assert (7 * k) * MsPerDay == 7 * k * MsPerDay;
  }

  /** goToNext then goToPrevious in the week view, or the other way round, is the identity. */
  lemma WeekNextPrevious(t: int, tz: int)
    ensures Stepped(Stepped(t, WeekView, tz, 1), WeekView, tz, -1) == t
    ensures Stepped(Stepped(t, WeekView, tz, -1), WeekView, tz, 1) == t
  {
    WeekStep(t, tz, 1);
    WeekStep(t + 7 * MsPerDay, tz, -1);
    WeekStep(t, tz, -1);
    WeekStep(t - 7 * MsPerDay, tz, 1);
  }

  /** A week step moves the week shown by the same number of weeks. */
  lemma WeekStepBounds(t: int, tz: int, k: int)
    ensures LocalDay(WeekBounds(Stepped(t, WeekView, tz, k), tz).start, tz) == LocalDay(WeekBounds(t, tz).start, tz) + 7 * k
  {
    WeekStep(t, tz, k);
    WeekBoundsShift(t, Stepped(t, WeekView, tz, k), tz, k);
  }

  /** A year and 1-based month. */
  datatype YearMonth = YearMonth(year: int, month: int)

  /** The month `k` months after month `m` of year `y`, the carry going into the year. */
  function AddMonths(y: int, m: int, k: int): (r: YearMonth)
    requires 1 <= m <= 12
    ensures 1 <= r.month <= 12
    ensures 12 * r.year + r.month == 12 * y + m + k
  {
    YearMonth(y + (m - 1 + k) / 12, (m - 1 + k) % 12 + 1)
  }

  /** MakeDay with month index `m0 + k` counts from the first day of the month `k` months after `m0`. */
  lemma MakeDayMonths(y: int, m0: int, k: int, date: int)
    requires 0 <= m0 < 12
    ensures var target := AddMonths(y, m0 + 1, k);
      ValidYmd(Ymd(target.year, target.month, 1))
      && MakeDay(y, m0 + k, date) == DayNumber(Ymd(target.year, target.month, 1)) + date - 1
  {
  }

  /** The month `k` steps from the month of `t`. */
  function TargetMonth(t: int, tz: int, k: int): YearMonth {
    SetMonthMakeDay(t, tz, 0);
    AddMonths(GetFullYear(t, tz), GetMonth(t, tz) + 1, k)
  }

  /** A month step is `setMonth` in the getters' terms. */
  lemma SteppedMonth(t: int, tz: int, k: int)
    ensures 0 <= GetMonth(t, tz) < 12
    ensures Stepped(t, MonthView, tz, k)
      == FromLocal(MakeDay(GetFullYear(t, tz), GetMonth(t, tz) + k, GetDate(t, tz)), LocalTimeOfDay(t, tz), tz)
  {
    SetMonthMakeDay(t, tz, GetMonth(t, tz) + k);
  }

  /** The month step from `t`: the day of month is kept and the target month's first day is the base. */
  lemma MonthStepDay(t: int, tz: int, k: int)
    ensures var target := TargetMonth(t, tz, k);
      ValidYmd(Ymd(target.year, target.month, 1))
      && Stepped(t, MonthView, tz, k)
         == FromLocal(DayNumber(Ymd(target.year, target.month, 1)) + GetDate(t, tz) - 1, LocalTimeOfDay(t, tz), tz)
  {
    SteppedMonth(t, tz, k);
    MakeDayMonths(GetFullYear(t, tz), GetMonth(t, tz), k, GetDate(t, tz));
  }

  /** Day `date` of the month `k` months after `m0`, when that month has the day, at `tod`. */
  lemma MonthStepYmd(y: int, m0: int, date: int, k: int, tod: int, tz: int)
    requires 0 <= m0 < 12 && 1 <= date && 0 <= tod < MsPerDay
    requires date <= DaysInMonth(AddMonths(y, m0 + 1, k).year, AddMonths(y, m0 + 1, k).month)
    ensures var target := AddMonths(y, m0 + 1, k);
      var s := FromLocal(MakeDay(y, m0 + k, date), tod, tz);
      CivilOf(LocalDay(s, tz)) == Ymd(target.year, target.month, date) && LocalTimeOfDay(s, tz) == tod
  {
    var target := AddMonths(y, m0 + 1, k);
    var d := Ymd(target.year, target.month, date);
    MakeDayMonths(y, m0, k, date);
    assert MakeDay(y, m0 + k, date) == DayNumber(d);
    FromLocalParts(DayNumber(d), tod, tz);
    CivilOfDayNumber(d);
  }

  /**
   * A month step lands on the same day of the target month at the same time
   * of day, when the target month has that day.
   */
  lemma MonthStep(t: int, tz: int, k: int)
    requires GetDate(t, tz) <= DaysInMonth(TargetMonth(t, tz, k).year, TargetMonth(t, tz, k).month)
    ensures var target := TargetMonth(t, tz, k);
      var s := Stepped(t, MonthView, tz, k);
      ValidYmd(Ymd(target.year, target.month, GetDate(t, tz)))
      && GetFullYear(s, tz) == target.year && GetMonth(s, tz) == target.month - 1 && GetDate(s, tz) == GetDate(t, tz)
      && LocalTimeOfDay(s, tz) == LocalTimeOfDay(t, tz)
  {
    SteppedMonth(t, tz, k);
    MonthStepYmd(GetFullYear(t, tz), GetMonth(t, tz), GetDate(t, tz), k, LocalTimeOfDay(t, tz), tz);
  }

  /**
   * When the target month is too short for the day, `setMonth` carries the
   * surplus into the following month: the step lands after the target month's
   * last day (January 31 plus one month is in March).
   */
  lemma MonthStepOverflow(t: int, tz: int, k: int)
    requires GetDate(t, tz) > DaysInMonth(TargetMonth(t, tz, k).year, TargetMonth(t, tz, k).month)
    ensures var target := TargetMonth(t, tz, k);
      var last := Ymd(target.year, target.month, DaysInMonth(target.year, target.month));
      ValidYmd(last) && LocalDay(Stepped(t, MonthView, tz, k), tz) > DayNumber(last)
  {
    var target := TargetMonth(t, tz, k);
    MonthStepDay(t, tz, k);
    FromLocalParts(DayNumber(Ymd(target.year, target.month, 1)) + GetDate(t, tz) - 1, LocalTimeOfDay(t, tz), tz);
  }

  /** Stepping back the months stepped forward returns to the starting month. */
  lemma AddMonthsInverse(y: int, m: int, k: int)
    requires 1 <= m <= 12
    ensures var r := AddMonths(y, m, k);
      AddMonths(r.year, r.month, -k) == YearMonth(y, m)
  {
  }

  /**
   * goToNext then goToPrevious in the month view is the identity when the
   * next month has the day of the month.
   */
  lemma MonthNextPrevious(t: int, tz: int)
    requires GetDate(t, tz) <= DaysInMonth(TargetMonth(t, tz, 1).year, TargetMonth(t, tz, 1).month)
    ensures Stepped(Stepped(t, MonthView, tz, 1), MonthView, tz, -1) == t
  {
    var s := Stepped(t, MonthView, tz, 1);
    SetMonthMakeDay(t, tz, 0);
    MonthStep(t, tz, 1);
    AddMonthsInverse(GetFullYear(t, tz), GetMonth(t, tz) + 1, 1);
    assert TargetMonth(s, tz, -1) == YearMonth(GetFullYear(t, tz), GetMonth(t, tz) + 1);
    MonthStep(s, tz, -1);
    var back := Stepped(s, MonthView, tz, -1);
    assert CivilOf(LocalDay(back, tz)) == CivilOf(LocalDay(t, tz));
    CivilOfInjective(LocalDay(back, tz), LocalDay(t, tz));
    LocalParts(back, tz);
    LocalParts(t, tz);
  }

  // ----- derived bounds -----

  /**
   * displayBounds: in the week view the week of `t`; in the month view the
   * month of `t` widened to whole weeks, starting from `new Date(y, m, 1)`
   * and `new Date(y, m + 1, 0)` (both at midnight).
   */
  function DisplayBounds(t: int, mode: ViewMode, tz: int): Bounds {
    match mode
    case WeekView => WeekBounds(t, tz)
    case MonthView =>
      var monthStart := NewDate(tz, GetFullYear(t, tz), GetMonth(t, tz), 1);
      var monthEnd := NewDate(tz, GetFullYear(t, tz), GetMonth(t, tz) + 1, 0);
      PadToWeeks(monthStart, monthEnd, tz)
  }

  /** The padding depends only on the local days of the two ends, not on their times of day. */
  lemma PadToWeeksByDay(ms: int, me: int, ms2: int, me2: int, tz: int)
    requires LocalDay(ms, tz) == LocalDay(ms2, tz) && LocalDay(me, tz) == LocalDay(me2, tz)
    ensures PadToWeeks(ms, me, tz) == PadToWeeks(ms2, me2, tz)
  {
    PadStart(ms, me, tz);
    PadStart(ms2, me2, tz);
    PadEnd(ms, me, tz);
    PadEnd(ms2, me2, tz);
  }

  /** The month view of the store is getMonthDisplayBounds, and its week view is getWeekBounds. */
  lemma DisplayBoundsAgree(t: int, tz: int)
    ensures DisplayBounds(t, WeekView, tz) == WeekBounds(t, tz)
    ensures DisplayBounds(t, MonthView, tz) == MonthDisplayBounds(t, tz)
  {
    var y, m := GetFullYear(t, tz), GetMonth(t, tz);
    var month := MonthBounds(t, tz);
    NewDateDay(tz, y, m, 1);
    NewDateDay(tz, y, m + 1, 0);
    SetHoursParts(NewDate(tz, y, m, 1), tz, 0, 0, 0, 0);
    SetHoursParts(NewDate(tz, y, m + 1, 0), tz, 23, 59, 59, 999);
    assert LocalDay(month.start, tz) == LocalDay(NewDate(tz, y, m, 1), tz);
    assert LocalDay(month.end, tz) == LocalDay(NewDate(tz, y, m + 1, 0), tz);
    PadToWeeksByDay(NewDate(tz, y, m, 1), NewDate(tz, y, m + 1, 0), month.start, month.end, tz);
  }

  // ----- the store -----

  /** The state of the calendar store and its operations. */
  class Store {
    const tz: int
    var currentDate: int
    var viewMode: ViewMode
    var loading: bool

    /** The initial state: today, week view, not loading. */
    constructor(now: int, tz: int)
      ensures this.tz == tz && currentDate == now && viewMode == WeekView && !loading
    {
      this.tz := tz;
      currentDate := now;
      viewMode := WeekView;
      loading := false;
    }

    /** weekBounds: the week of the current date. */
    function CurrentWeekBounds(): Bounds
      reads this
    {
      WeekBounds(currentDate, tz)
    }

    /** monthBounds: the month of the current date. */
    function CurrentMonthBounds(): Bounds
      reads this
    {
      MonthBounds(currentDate, tz)
    }

    /** displayBounds: the range the current view shows. */
    function CurrentDisplayBounds(): Bounds
      reads this
    {
      DisplayBounds(currentDate, viewMode, tz)
    }

    method SetCurrentDate(date: int)
      modifies this
      ensures currentDate == date && viewMode == old(viewMode) && loading == old(loading)
    {
      currentDate := date;
    }

    method SetViewMode(mode: ViewMode)
      modifies this
      ensures viewMode == mode && currentDate == old(currentDate) && loading == old(loading)
    {
      viewMode := mode;
    }

    /** goToToday(): the clock's reading is the parameter `now`. */
    method GoToToday(now: int)
      modifies this
      ensures currentDate == now && viewMode == old(viewMode) && loading == old(loading)
    {
      currentDate := now;
    }

    method GoToPrevious()
      modifies this
      ensures currentDate == Stepped(old(currentDate), viewMode, tz, -1)
      ensures viewMode == old(viewMode) && loading == old(loading)
    {
      var newDate := currentDate;
      if viewMode == WeekView {
        newDate := SetDate(newDate, tz, GetDate(newDate, tz) - 7);
      } else {
        newDate := SetMonth(newDate, tz, GetMonth(newDate, tz) - 1);
      }
      currentDate := newDate;
    }

    method GoToNext()
      modifies this
      ensures currentDate == Stepped(old(currentDate), viewMode, tz, 1)
      ensures viewMode == old(viewMode) && loading == old(loading)
    {
      var newDate := currentDate;
      if viewMode == WeekView {
        newDate := SetDate(newDate, tz, GetDate(newDate, tz) + 7);
      } else {
        newDate := SetMonth(newDate, tz, GetMonth(newDate, tz) + 1);
      }
      currentDate := newDate;
    }

    method SetLoading(l: bool)
      modifies this
      ensures loading == l && currentDate == old(currentDate) && viewMode == old(viewMode)
    {
      loading := l;
    }

    /** reset(): today, week view, not loading. */
    method Reset(now: int)
      modifies this
      ensures currentDate == now && viewMode == WeekView && !loading
    {
      currentDate, viewMode, loading := now, WeekView, false;
    }
  }
}
