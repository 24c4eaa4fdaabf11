/**
 * Completion keys: `formatDateKey` (the date part of `toISOString()`, so a UTC
 * calendar date) and `createCompletionKey` (`taskId + "_" + date`).
 */
module DateKey {
  import opened Wrappers
  import opened Civil
  import opened JsDate
  import opened Text

  /** UTC day number of a time value (ECMAScript Day(t)). */
  function UtcDay(t: int): int {
    t / MsPerDay
  }

  /** Year as `toISOString` writes it: four digits, or a sign and six digits outside 0..9999. */
  function IsoYear(y: int): string {
    if 0 <= y <= 9999 then FixedDigits(y, 4)
    else (if y < 0 then "-" else "+") + FixedDigits(if y < 0 then -y else y, 6)
  }

  /** `YYYY-MM-DD` for a calendar date. */
  function IsoDate(c: Ymd): string
    requires ValidYmd(c)
  {
    IsoYear(c.year) + "-" + FixedDigits(c.month, 2) + "-" + FixedDigits(c.day, 2)
  }

  /** `HH:mm:ss.sssZ` for the UTC time of day of `t`. */
  function IsoTime(t: int): string {
    var ms := t % MsPerDay;
    FixedDigits(ms / 3600000, 2) + ":" + FixedDigits(ms / 60000 % 60, 2) + ":"
      + FixedDigits(ms / 1000 % 60, 2) + "." + FixedDigits(ms % 1000, 3) + "Z"
  }

  /** `date.toISOString()`: `YYYY-MM-DDTHH:mm:ss.sssZ` in UTC. */
  function ToIsoString(t: int): string {
    IsoDate(CivilOf(UtcDay(t))) + "T" + IsoTime(t)
  }

  /** formatDateKey: `date.toISOString().split('T')[0]`. */
  function FormatDateKey(t: int): string {
    Split(ToIsoString(t), 'T')[0]
  }

  lemma IsoDateHasNoT(c: Ymd)
    requires ValidYmd(c)
    ensures 'T' !in IsoDate(c)
  {
    var y := IsoYear(c.year);
    assert 'T' !in y by {
      if 0 <= c.year <= 9999 {
        assert AllDigits(y);
      } else {
        var digits := FixedDigits(if c.year < 0 then -c.year else c.year, 6);
        assert AllDigits(digits);
        assert y == [y[0]] + digits;
      }
    }
    var m, d := FixedDigits(c.month, 2), FixedDigits(c.day, 2);
    assert AllDigits(m) && AllDigits(d);
    assert IsoDate(c) == y + "-" + m + "-" + d;
  }

  /** The key is the UTC calendar date of `t`, whatever the local time zone. */
  lemma FormatDateKeyIsUtcDate(t: int)
    ensures FormatDateKey(t) == IsoDate(CivilOf(UtcDay(t)))
  {
    var d := IsoDate(CivilOf(UtcDay(t)));
    IsoDateHasNoT(CivilOf(UtcDay(t)));
    var rest := "T" + IsoTime(t);
    assert ToIsoString(t) == d + rest;
    IndexOfPrefix(d, rest, 'T');
    assert (d + rest)[..|d|] == d;
  }

  predicate InIsoYearRange(t: int) {
    0 <= CivilOf(UtcDay(t)).year <= 9999
  }

  /** `YYYY-MM-DD` read back into a calendar date; `None` for anything else. */
  function ParseDateKey(s: string): Option<Ymd> {
    if |s| == 10 && s[4] == '-' && s[7] == '-'
       && AllDigits(s[..4]) && AllDigits(s[5..7]) && AllDigits(s[8..])
    then
      var c := Ymd(DigitsValue(s[..4]), DigitsValue(s[5..7]), DigitsValue(s[8..]));
      if ValidYmd(c) then Some(c) else None
    else None
  }

  lemma ParseDateParts(y: string, m: string, d: string)
    requires |y| == 4 && |m| == 2 && |d| == 2
    requires AllDigits(y) && AllDigits(m) && AllDigits(d)
    requires ValidYmd(Ymd(DigitsValue(y), DigitsValue(m), DigitsValue(d)))
    ensures ParseDateKey(y + "-" + m + "-" + d) == Some(Ymd(DigitsValue(y), DigitsValue(m), DigitsValue(d)))
  {
    var s := y + "-" + m + "-" + d;
    assert s[..4] == y && s[5..7] == m && s[8..] == d;
  }

  /** A date in years 0..9999 is written in ten characters and reads back. */
  lemma ParseIsoDate(c: Ymd)
    requires ValidYmd(c) && 0 <= c.year <= 9999
    ensures |IsoDate(c)| == 10
    ensures ParseDateKey(IsoDate(c)) == Some(c)
  {
    var y, m, d := FixedDigits(c.year, 4), FixedDigits(c.month, 2), FixedDigits(c.day, 2);
    assert IsoYear(c.year) == y;
    assert IsoDate(c) == y + "-" + m + "-" + d;
    assert Pow10(2) == 100 && Pow10(4) == 10000;
    FixedDigitsValue(c.year, 4);
    FixedDigitsValue(c.month, 2);
    FixedDigitsValue(c.day, 2);
    assert Ymd(DigitsValue(y), DigitsValue(m), DigitsValue(d)) == c;
    ParseDateParts(y, m, d);
  }

  /** Within years 0..9999 the key is ten characters and reads back to the UTC date. */
  lemma ParseFormatDateKey(t: int)
    requires InIsoYearRange(t)
    ensures |FormatDateKey(t)| == 10
    ensures ParseDateKey(FormatDateKey(t)) == Some(CivilOf(UtcDay(t)))
  {
    FormatDateKeyIsUtcDate(t);
    ParseIsoDate(CivilOf(UtcDay(t)));
  }

  /** Two instants in years 0..9999 share a key exactly when they fall on the same UTC day. */
  lemma FormatDateKeyInjective(a: int, b: int)
    requires InIsoYearRange(a) && InIsoYearRange(b)
    ensures FormatDateKey(a) == FormatDateKey(b) <==> UtcDay(a) == UtcDay(b)
  {
    ParseFormatDateKey(a);
    ParseFormatDateKey(b);
    CivilOfInjective(UtcDay(a), UtcDay(b));
  }

  /** The date argument of createCompletionKey: a string used verbatim, or a Date. */
  datatype DateArg = DateString(s: string) | DateValue(t: int)

  /** createCompletionKey(taskId, date). */
  function CreateCompletionKey(taskId: string, date: DateArg): (key: string)
    ensures |key| > |taskId| && key[..|taskId|] == taskId && key[|taskId|] == '_'
    ensures date.DateString? ==> key[|taskId| + 1..] == date.s
    ensures date.DateValue? ==> key[|taskId| + 1..] == FormatDateKey(date.t)
  {
    var dateStr := match date
      case DateString(s) => s
      case DateValue(t) => FormatDateKey(t);
    var key := taskId + "_" + dateStr;
    assert key[..|taskId|] == taskId;
    assert key[|taskId| + 1..] == dateStr;
    key
  }

  /** A Date argument gives the same key as its formatted date string. */
  lemma CompletionKeyOfDate(taskId: string, t: int)
    ensures CreateCompletionKey(taskId, DateValue(t)) == CreateCompletionKey(taskId, DateString(FormatDateKey(t)))
  {
  }

  /**
   * With date parts of one common length (ten characters for `YYYY-MM-DD`), a
   * key determines its task id and its date.
   */
  lemma CompletionKeyInjective(id1: string, d1: string, id2: string, d2: string)
    requires |d1| == |d2|
    requires CreateCompletionKey(id1, DateString(d1)) == CreateCompletionKey(id2, DateString(d2))
    ensures id1 == id2 && d1 == d2
  {
    var k := CreateCompletionKey(id1, DateString(d1));
    assert |id1| == |id2|;
    assert id1 == k[..|id1|];
    assert d1 == k[|id1| + 1..];
  }

  /** Without the common length, different (task, date) pairs can share a key. */
  lemma CompletionKeyAmbiguous()
    ensures CreateCompletionKey("a_b", DateString("c")) == CreateCompletionKey("a", DateString("b_c"))
  {
  }
}
