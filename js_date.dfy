/**
 * The parts of the ECMAScript Date object the calendar code uses. A date is
 * its time value `t` (milliseconds since 1970-01-01T00:00:00Z). Local time is
 * UTC shifted by a fixed offset `tz` in milliseconds (daylight saving is not
 * modelled), so the local day of `t` is `(t + tz) / MsPerDay`.
 */
module JsDate {
  import opened Civil

  const MsPerDay: int := 86400000
  const LastMsOfDay: int := 86399999

  /** Local day number of `t`. */
  function LocalDay(t: int, tz: int): int {
    (t + tz) / MsPerDay
  }

  /** Milliseconds since local midnight. */
  function LocalTimeOfDay(t: int, tz: int): (ms: int)
    ensures 0 <= ms < MsPerDay
  {
    (t + tz) % MsPerDay
  }

  /** The time value of local day `day` at `ms` milliseconds past midnight (MakeDate, then UTC). */
  function FromLocal(day: int, ms: int, tz: int): int {
    day * MsPerDay + ms - tz
  }

  lemma FromLocalParts(day: int, ms: int, tz: int)
    requires 0 <= ms < MsPerDay
    ensures LocalDay(FromLocal(day, ms, tz), tz) == day
    ensures LocalTimeOfDay(FromLocal(day, ms, tz), tz) == ms
  {
  }

  lemma LocalParts(t: int, tz: int)
    ensures FromLocal(LocalDay(t, tz), LocalTimeOfDay(t, tz), tz) == t
  {
  }

  /** Local midnight and the last millisecond of a local day bracket every instant of that day. */
  lemma WithinLocalDay(t: int, tz: int)
    ensures FromLocal(LocalDay(t, tz), 0, tz) <= t <= FromLocal(LocalDay(t, tz), LastMsOfDay, tz)
  {
  }

  /** Instants are ordered like their (local day, time of day) pairs. */
  lemma LocalDayMonotone(a: int, b: int, tz: int)
    requires a <= b
    ensures LocalDay(a, tz) <= LocalDay(b, tz)
  {
  }

  // Getters (local time).

  function GetDay(t: int, tz: int): int { Weekday(LocalDay(t, tz)) }
  function GetDate(t: int, tz: int): int { CivilOf(LocalDay(t, tz)).day }
  function GetMonth(t: int, tz: int): int { CivilOf(LocalDay(t, tz)).month - 1 }
  function GetFullYear(t: int, tz: int): int { CivilOf(LocalDay(t, tz)).year }

  // Setters and constructor (local time), each returning the new time value.

  /**
   * `new Date(t).setDate(date)`: same year, month and time of day, day of
   * month `date`, counted from the first of the month (so it may leave the
   * month). ECMAScript writes this as MakeDay(year, month, date);
   * SetDateMakeDay shows the two agree.
   */
  function SetDate(t: int, tz: int, date: int): int {
    FromLocal(LocalDay(t, tz) + (date - GetDate(t, tz)), LocalTimeOfDay(t, tz), tz)
  }

  /** `new Date(t).setMonth(month)`: same year, day of month and time of day, 0-based month `month`. */
  function SetMonth(t: int, tz: int, month: int): int {
    var c := CivilOf(LocalDay(t, tz));
    FromLocal(MakeDay(c.year, month, c.day), LocalTimeOfDay(t, tz), tz)
  }

  /** `new Date(t).setHours(h, m, s, ms)`: same local day, the given time of day. */
  function SetHours(t: int, tz: int, h: int, m: int, s: int, ms: int): int {
    FromLocal(LocalDay(t, tz), h * 3600000 + m * 60000 + s * 1000 + ms, tz)
  }

  /**
   * The year `new Date(year, month, date)` uses (ECMAScript MakeFullYear): a
   * year from 0 through 99 stands for 1900 + year.
   */
  function FullYear(year: int): int {
    if 0 <= year <= 99 then 1900 + year else year
  }

  /** `new Date(year, month, date)`: local midnight of MakeDay(FullYear(year), month, date). */
  function NewDate(tz: int, year: int, month: int, date: int): int {
    FromLocal(MakeDay(FullYear(year), month, date), 0, tz)
  }

  /** Adding `k` days of milliseconds moves the local day by `k` and keeps the time of day. */
  lemma AddDays(t: int, tz: int, k: int)
    ensures LocalDay(t + k * MsPerDay, tz) == LocalDay(t, tz) + k
    ensures LocalTimeOfDay(t + k * MsPerDay, tz) == LocalTimeOfDay(t, tz)
    ensures FromLocal(LocalDay(t, tz) + k, LocalTimeOfDay(t, tz), tz) == t + k * MsPerDay
  {
    LocalParts(t, tz);
    FromLocalParts(LocalDay(t, tz) + k, LocalTimeOfDay(t, tz), tz);
  }

  lemma SetDateMakeDay(t: int, tz: int, date: int)
    ensures SetDate(t, tz, date) == FromLocal(MakeDay(GetFullYear(t, tz), GetMonth(t, tz), date), LocalTimeOfDay(t, tz), tz)
  {
    var c := CivilOf(LocalDay(t, tz));
    MakeDayOffset(c, date);
  }

  /** `setMonth(month)` in the getters' terms: MakeDay of the year, the new month and the same date. */
  lemma SetMonthMakeDay(t: int, tz: int, month: int)
    ensures GetMonth(t, tz) + 1 == CivilOf(LocalDay(t, tz)).month
    ensures ValidYmd(Ymd(GetFullYear(t, tz), GetMonth(t, tz) + 1, GetDate(t, tz)))
    ensures SetMonth(t, tz, month) == FromLocal(MakeDay(GetFullYear(t, tz), month, GetDate(t, tz)), LocalTimeOfDay(t, tz), tz)
  {
  }

  /** `setDate(getDate() + k)` moves the local day by exactly `k` and keeps the time of day. */
  lemma ShiftDays(t: int, tz: int, k: int)
    ensures SetDate(t, tz, GetDate(t, tz) + k) == t + k * MsPerDay
    ensures LocalDay(t + k * MsPerDay, tz) == LocalDay(t, tz) + k
    ensures LocalTimeOfDay(t + k * MsPerDay, tz) == LocalTimeOfDay(t, tz)
  {
    AddDays(t, tz, k);
  }

  /** `setHours(h, m, s, ms)` with an in-range time keeps the local day and sets the time of day. */
  lemma SetHoursParts(t: int, tz: int, h: int, m: int, s: int, ms: int)
    requires 0 <= h < 24 && 0 <= m < 60 && 0 <= s < 60 && 0 <= ms < 1000
    ensures LocalDay(SetHours(t, tz, h, m, s, ms), tz) == LocalDay(t, tz)
    ensures LocalTimeOfDay(SetHours(t, tz, h, m, s, ms), tz) == h * 3600000 + m * 60000 + s * 1000 + ms
  {
    FromLocalParts(LocalDay(t, tz), h * 3600000 + m * 60000 + s * 1000 + ms, tz);
  }

  /** `setDate(getDate() + k)` moves the local day by `k` and keeps the time of day. */
  lemma SetDateParts(t: int, tz: int, k: int)
    ensures LocalDay(SetDate(t, tz, GetDate(t, tz) + k), tz) == LocalDay(t, tz) + k
    ensures LocalTimeOfDay(SetDate(t, tz, GetDate(t, tz) + k), tz) == LocalTimeOfDay(t, tz)
  {
    assert SetDate(t, tz, GetDate(t, tz) + k) == FromLocal(LocalDay(t, tz) + k, LocalTimeOfDay(t, tz), tz);
    FromLocalParts(LocalDay(t, tz) + k, LocalTimeOfDay(t, tz), tz);
  }

  /** `setHours(0, 0, 0, 0)` is local midnight and `setHours(23, 59, 59, 999)` the day's last millisecond. */
  lemma SetHoursDay(t: int, tz: int)
    ensures SetHours(t, tz, 0, 0, 0, 0) == FromLocal(LocalDay(t, tz), 0, tz)
    ensures SetHours(t, tz, 23, 59, 59, 999) == FromLocal(LocalDay(t, tz), LastMsOfDay, tz)
  {
  }

  /** Time values are ordered like their (local day, time of day) pairs. */
  lemma FromLocalOrder(d1: int, ms1: int, d2: int, ms2: int, tz: int)
    requires 0 <= ms1 < MsPerDay && 0 <= ms2 < MsPerDay
    requires d1 < d2 || (d1 == d2 && ms1 <= ms2)
    ensures FromLocal(d1, ms1, tz) <= FromLocal(d2, ms2, tz)
  {
    if d1 < d2 {
      assert d1 * MsPerDay + MsPerDay <= d2 * MsPerDay;
    }
  }

  /** `setDate(getDate() + k); setHours(0, 0, 0, 0)`: midnight `k` local days later. */
  lemma ShiftedMidnight(t: int, tz: int, k: int)
    ensures SetHours(SetDate(t, tz, GetDate(t, tz) + k), tz, 0, 0, 0, 0) == FromLocal(LocalDay(t, tz) + k, 0, tz)
  {
    SetDateParts(t, tz, k);
    SetHoursDay(SetDate(t, tz, GetDate(t, tz) + k), tz);
  }

  /** `setDate(getDate() + k); setHours(23, 59, 59, 999)`: the last millisecond `k` local days later. */
  lemma ShiftedEndOfDay(t: int, tz: int, k: int)
    ensures SetHours(SetDate(t, tz, GetDate(t, tz) + k), tz, 23, 59, 59, 999) == FromLocal(LocalDay(t, tz) + k, LastMsOfDay, tz)
  {
    SetDateParts(t, tz, k);
    SetHoursDay(SetDate(t, tz, GetDate(t, tz) + k), tz);
  }

  /** `new Date(y, m, d)` then `setHours(...)`: that local day at midnight or at its last millisecond. */
  lemma NewDateDay(tz: int, year: int, month: int, date: int)
    ensures SetHours(NewDate(tz, year, month, date), tz, 0, 0, 0, 0) == FromLocal(MakeDay(FullYear(year), month, date), 0, tz)
    ensures SetHours(NewDate(tz, year, month, date), tz, 23, 59, 59, 999)
      == FromLocal(MakeDay(FullYear(year), month, date), LastMsOfDay, tz)
  {
    FromLocalParts(MakeDay(FullYear(year), month, date), 0, tz);
    SetHoursDay(NewDate(tz, year, month, date), tz);
  }
}
