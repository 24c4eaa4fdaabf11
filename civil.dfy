/**
 * Proleptic Gregorian calendar over day numbers (day 0 is 1970-01-01), as the
 * ECMAScript Date object computes it: years, months, days of month, weekdays,
 * and MakeDay with its month overflow.
 */
module Civil {

  /** A calendar date; `month` is 1..12 and `day` is 1-based. */
  datatype Ymd = Ymd(year: int, month: int, day: int)

  predicate IsLeap(y: int) {
    y % 4 == 0 && (y % 100 != 0 || y % 400 == 0)
  }

  function DaysInYear(y: int): int {
    if IsLeap(y) then 366 else 365
  }

  function DaysInMonth(y: int, m: int): int
    requires 1 <= m <= 12
  {
    if m == 2 then (if IsLeap(y) then 29 else 28)
    else if m == 4 || m == 6 || m == 9 || m == 11 then 30
    else 31
  }

  /** Days of year `y` before the first of month `m`; `m == 13` gives the whole year. */
  function DaysBeforeMonth(y: int, m: int): int
    requires 1 <= m <= 13
  {
    var common := [0, 31, 59, 90, 120, 151, 181, 212, 243, 273, 304, 334, 365][m - 1];
    if m > 2 && IsLeap(y) then common + 1 else common
  }

  predicate ValidYmd(d: Ymd) {
    1 <= d.month <= 12 && 1 <= d.day <= DaysInMonth(d.year, d.month)
  }

  /** Number of leap years among 1..x (for x >= 0), extended to all integers by the same formula. */
  function LeapsThrough(x: int): int {
    x / 4 - x / 100 + x / 400
  }

  /** Day number of January 1 of year `y`. */
  function DaysBeforeYear(y: int): int {
    365 * (y - 1970) + LeapsThrough(y - 1) - LeapsThrough(1969)
  }

  /** Going from x - 1 to x, the quotient by k grows by one exactly at multiples of k. */
  lemma DivStep(x: int, k: int)
    requires k == 4 || k == 100 || k == 400
    ensures x / k - (x - 1) / k == if x % k == 0 then 1 else 0
  {
    var q, r := x / k, x % k;
    if r == 0 {
      DivUnique(x - 1, k, q - 1, k - 1);
    } else {
      DivUnique(x - 1, k, q, r - 1);
    }
  }

  lemma DivUnique(x: int, k: int, q: int, r: int)
    requires k == 4 || k == 100 || k == 400
    requires x == k * q + r && 0 <= r < k
    ensures x / k == q
  {
  }

  lemma LeapsStep(y: int)
    ensures LeapsThrough(y) - LeapsThrough(y - 1) == if IsLeap(y) then 1 else 0
  {
    DivStep(y, 4);
    DivStep(y, 100);
    DivStep(y, 400);
  }

  lemma DaysBeforeYearStep(y: int)
    ensures DaysBeforeYear(y + 1) == DaysBeforeYear(y) + DaysInYear(y)
  {
    LeapsStep(y);
  }

  lemma {:induction false} DaysBeforeYearMonotone(a: int, b: int)
    requires a <= b
    ensures DaysBeforeYear(a) + 365 * (b - a) <= DaysBeforeYear(b)
    decreases b - a
  {
    if a < b {
      DaysBeforeYearMonotone(a, b - 1);
      DaysBeforeYearStep(b - 1);
    }
  }

  function YearSearchUp(n: int, y: int): (r: int)
    requires DaysBeforeYear(y) <= n
    ensures DaysBeforeYear(r) <= n < DaysBeforeYear(r + 1)
    decreases n - DaysBeforeYear(y)
  {
    DaysBeforeYearStep(y);
    if n < DaysBeforeYear(y + 1) then y else YearSearchUp(n, y + 1)
  }

  function YearSearchDown(n: int, y: int): (r: int)
    requires n < DaysBeforeYear(y + 1)
    ensures DaysBeforeYear(r) <= n < DaysBeforeYear(r + 1)
    decreases DaysBeforeYear(y + 1) - n
  {
    DaysBeforeYearStep(y);
    if DaysBeforeYear(y) <= n then y else YearSearchDown(n, y - 1)
  }

  /** The year containing day `n` (ECMAScript YearFromTime). */
  function YearOf(n: int): (y: int)
    ensures DaysBeforeYear(y) <= n < DaysBeforeYear(y + 1)
  {
    if n >= 0 then YearSearchUp(n, 1970) else YearSearchDown(n, 1969)
  }

  lemma YearOfUnique(n: int, y: int)
    requires DaysBeforeYear(y) <= n < DaysBeforeYear(y + 1)
    ensures YearOf(n) == y
  {
    var r := YearOf(n);
    if r < y {
      DaysBeforeYearMonotone(r + 1, y);
    } else if y < r {
      DaysBeforeYearMonotone(y + 1, r);
    }
  }

  lemma DaysBeforeMonthMonotone(y: int, a: int, b: int)
    requires 1 <= a <= b <= 13
    ensures DaysBeforeMonth(y, a) <= DaysBeforeMonth(y, b)
    ensures a < b ==> DaysBeforeMonth(y, a) + 28 <= DaysBeforeMonth(y, b)
  {
  }

  lemma DaysBeforeNextMonth(y: int, m: int)
    requires 1 <= m <= 12
    ensures DaysBeforeMonth(y, m + 1) == DaysBeforeMonth(y, m) + DaysInMonth(y, m)
    ensures DaysBeforeMonth(y, 13) == DaysInYear(y)
  {
  }

  function MonthSearch(y: int, doy: int, m: int): (r: int)
    requires 1 <= m <= 12 && DaysBeforeMonth(y, m) <= doy < DaysInYear(y)
    ensures m <= r <= 12
    ensures DaysBeforeMonth(y, r) <= doy < DaysBeforeMonth(y, r + 1)
    decreases 12 - m
  {
    if m == 12 || doy < DaysBeforeMonth(y, m + 1) then m else MonthSearch(y, doy, m + 1)
  }

  /** The month (1..12) containing day-of-year `doy` of year `y`. */
  function MonthOf(y: int, doy: int): (m: int)
    requires 0 <= doy < DaysInYear(y)
    ensures 1 <= m <= 12
    ensures DaysBeforeMonth(y, m) <= doy < DaysBeforeMonth(y, m + 1)
  {
    MonthSearch(y, doy, 1)
  }

  lemma MonthOfUnique(y: int, doy: int, m: int)
    requires 1 <= m <= 12
    requires DaysBeforeMonth(y, m) <= doy < DaysBeforeMonth(y, m + 1)
    ensures 0 <= doy < DaysInYear(y)
    ensures MonthOf(y, doy) == m
  {
    DaysBeforeMonthMonotone(y, m + 1, 13);
    var r := MonthOf(y, doy);
    if r < m {
      DaysBeforeMonthMonotone(y, r + 1, m);
    } else if m < r {
      DaysBeforeMonthMonotone(y, m + 1, r);
    }
  }

  /** Day number of a valid calendar date. */
  function DayNumber(d: Ymd): int
    requires ValidYmd(d)
  {
    DaysBeforeYear(d.year) + DaysBeforeMonth(d.year, d.month) + d.day - 1
  }

  /** The calendar date of day `n` (ECMAScript YearFromTime, MonthFromTime, DateFromTime). */
  function CivilOf(n: int): (d: Ymd)
    ensures ValidYmd(d)
    ensures DayNumber(d) == n
  {
    var y := YearOf(n);
    DaysBeforeYearStep(y);
    var doy := n - DaysBeforeYear(y);
    var m := MonthOf(y, doy);
    DaysBeforeNextMonth(y, m);
    Ymd(y, m, doy - DaysBeforeMonth(y, m) + 1)
  }

  /** Day numbers and valid calendar dates are in one-to-one correspondence. */
  lemma CivilOfDayNumber(d: Ymd)
    requires ValidYmd(d)
    ensures CivilOf(DayNumber(d)) == d
  {
    var n := DayNumber(d);
    DaysBeforeNextMonth(d.year, d.month);
    DaysBeforeMonthMonotone(d.year, d.month + 1, 13);
    DaysBeforeYearStep(d.year);
    YearOfUnique(n, d.year);
    MonthOfUnique(d.year, n - DaysBeforeYear(d.year), d.month);
  }

  lemma CivilOfInjective(a: int, b: int)
    ensures CivilOf(a) == CivilOf(b) <==> a == b
  {
  }

  /** Day of week, 0 = Sunday .. 6 = Saturday (ECMAScript WeekDay; day 0 was a Thursday). */
  function Weekday(n: int): (w: int)
    ensures 0 <= w < 7
  {
    (n + 4) % 7
  }

  /**
   * ECMAScript MakeDay(year, month, date) for a 0-based month: months outside
   * 0..11 carry into the year, dates outside the month carry into the next
   * or previous months.
   */
  function MakeDay(year: int, month: int, date: int): int {
    var ym := year + month / 12;
    var mn := month % 12;
    DayNumber(Ymd(ym, mn + 1, 1)) + date - 1
  }

  /** Day `date` of the month holding `d`, counted from that month's first day. */
  lemma MakeDayOffset(d: Ymd, date: int)
    requires ValidYmd(d)
    ensures MakeDay(d.year, d.month - 1, date) == DayNumber(d) + date - d.day
  {
  }

  /** `MakeDay(y, m, 0)` is the last day of the month before 0-based month `m`. */
  lemma MakeDayZero(y: int, m: int)
    requires 1 <= m <= 12
    ensures ValidYmd(Ymd(y, m, DaysInMonth(y, m)))
    ensures MakeDay(y, m, 0) == DayNumber(Ymd(y, m, DaysInMonth(y, m)))
  {
    DaysBeforeNextMonth(y, m);
    if m == 12 {
      DaysBeforeYearStep(y);
    }
  }
}
