/**
 * Recurrence rules as the `rrule` library reads and enumerates them, for the
 * grammar `FREQ=...;INTERVAL=n;BYDAY=MO,...;BYMONTHDAY=d,...` of RFC 5545
 * section 3.3.10: the options as written (`origOptions`), a parser
 * (`RRule.fromString`), its inverse, and the occurrences of a rule anchored
 * at a start instant (`between(lo, hi, true)`), computed on UTC days.
 */
module RRule {
  import opened Wrappers
  import opened Civil
  import opened JsDate
  import opened Text
  import DateKey

  datatype Frequency = Yearly | Monthly | Weekly | Daily

  /** Weekday codes of RFC 5545, in the order rrule numbers them (MO = 0). */
  datatype Weekday = MO | TU | WE | TH | FR | SA | SU

  type Interval = i: int | i >= 1 witness 1

  /** The options a rule string spells out; an empty list means the part is absent. */
  datatype Options = Options(
    freq: Option<Frequency>,
    interval: Option<Interval>,
    byweekday: seq<Weekday>,
    bymonthday: seq<int>)

  datatype ParseError =
    | Malformed(field: string)
    | UnknownProperty(key: string)
    | BadValue(key: string, value: string)

  const NoOptions := Options(None, None, [], [])

  // ----- Text form -----

  function FrequencyName(f: Frequency): string {
    match f
    case Yearly => "YEARLY"
    case Monthly => "MONTHLY"
    case Weekly => "WEEKLY"
    case Daily => "DAILY"
  }

  function FrequencyOf(s: string): Option<Frequency> {
    if s == "YEARLY" then Some(Yearly)
    else if s == "MONTHLY" then Some(Monthly)
    else if s == "WEEKLY" then Some(Weekly)
    else if s == "DAILY" then Some(Daily)
    else None
  }

  function WeekdayCode(w: Weekday): string {
    match w
    case MO => "MO"
    case TU => "TU"
    case WE => "WE"
    case TH => "TH"
    case FR => "FR"
    case SA => "SA"
    case SU => "SU"
  }

  function WeekdayOfCode(s: string): Option<Weekday> {
    if s == "MO" then Some(MO)
    else if s == "TU" then Some(TU)
    else if s == "WE" then Some(WE)
    else if s == "TH" then Some(TH)
    else if s == "FR" then Some(FR)
    else if s == "SA" then Some(SA)
    else if s == "SU" then Some(SU)
    else None
  }

  predicate ValidMonthDay(v: int) {
    (1 <= v <= 31) || (-31 <= v <= -1)
  }

  function ParseWeekdays(codes: seq<string>): Option<seq<Weekday>> {
    if codes == [] then Some([])
    else
      var w := WeekdayOfCode(codes[0]);
      var ws := ParseWeekdays(codes[1..]);
      if w.Some? && ws.Some? then Some([w.value] + ws.value) else None
  }

  function ParseMonthDays(items: seq<string>): Option<seq<int>> {
    if items == [] then Some([])
    else
      var v := ParseInt(items[0]);
      var vs := ParseMonthDays(items[1..]);
      if v.Some? && ValidMonthDay(v.value) && vs.Some? then Some([v.value] + vs.value) else None
  }

  /** One `KEY=VALUE` part; a repeated key overrides the earlier one. */
  function ParseField(field: string, acc: Options): Result<Options, ParseError> {
    var kv := Split(field, '=');
    if |kv| != 2 then Failure(Malformed(field)) else ParseProperty(kv[0], kv[1], acc)
  }

  function ParseProperty(key: string, value: string, acc: Options): Result<Options, ParseError> {
    if key == "FREQ" then
      match FrequencyOf(value)
      case Some(f) => Success(acc.(freq := Some(f)))
      case None => Failure(BadValue(key, value))
    else if key == "INTERVAL" then
      match ParseNat(value)
      case Some(n) => if n >= 1 then Success(acc.(interval := Some(n))) else Failure(BadValue(key, value))
      case None => Failure(BadValue(key, value))
    else if key == "BYDAY" then
      match ParseWeekdays(Split(value, ','))
      case Some(ws) => if ws != [] then Success(acc.(byweekday := ws)) else Failure(BadValue(key, value))
      case None => Failure(BadValue(key, value))
    else if key == "BYMONTHDAY" then
      match ParseMonthDays(Split(value, ','))
      case Some(vs) => if vs != [] then Success(acc.(bymonthday := vs)) else Failure(BadValue(key, value))
      case None => Failure(BadValue(key, value))
    else Failure(UnknownProperty(key))
  }

  function ParseFields(fields: seq<string>, acc: Options): Result<Options, ParseError> {
    if fields == [] then Success(acc)
    else
      match ParseField(fields[0], acc)
      case Success(o) => ParseFields(fields[1..], o)
      case Failure(e) => Failure(e)
  }

  /** `RRule.fromString(s).origOptions`, or the error it throws. */
  function Parse(s: string): Result<Options, ParseError> {
    var body := if |s| >= 6 && s[..6] == "RRULE:" then s[6..] else s;
    ParseFields(Split(body, ';'), NoOptions)
  }

  function MapCodes(ws: seq<Weekday>): (r: seq<string>)
    ensures |r| == |ws|
    ensures forall i :: 0 <= i < |ws| ==> r[i] == WeekdayCode(ws[i])
  {
    if ws == [] then [] else [WeekdayCode(ws[0])] + MapCodes(ws[1..])
  }

  function MapInts(vs: seq<int>): (r: seq<string>)
    ensures |r| == |vs|
    ensures forall i :: 0 <= i < |vs| ==> r[i] == IntToString(vs[i])
  {
    if vs == [] then [] else [IntToString(vs[0])] + MapInts(vs[1..])
  }

  /** One `KEY=VALUE` part of a rule string. */
  datatype Part = Part(key: string, value: string)

  /** The parts a set of options is written as, in rrule's order. */
  function Parts(o: Options): seq<Part> {
    FreqPart(o) + IntervalPart(o) + ByDayPart(o) + ByMonthDayPart(o)
  }

  function FreqPart(o: Options): seq<Part> {
    if o.freq.Some? then [Part("FREQ", FrequencyName(o.freq.value))] else []
  }

  function IntervalPart(o: Options): seq<Part> {
    if o.interval.Some? then [Part("INTERVAL", NatToString(o.interval.value))] else []
  }

  function ByDayPart(o: Options): seq<Part> {
    if o.byweekday != [] then [Part("BYDAY", Join(MapCodes(o.byweekday), ','))] else []
  }

  function ByMonthDayPart(o: Options): seq<Part> {
    if o.bymonthday != [] then [Part("BYMONTHDAY", Join(MapInts(o.bymonthday), ','))] else []
  }

  function FieldTexts(ps: seq<Part>): (r: seq<string>)
    ensures |r| == |ps|
    ensures forall i :: 0 <= i < |ps| ==> r[i] == ps[i].key + "=" + ps[i].value
  {
    if ps == [] then [] else [ps[0].key + "=" + ps[0].value] + FieldTexts(ps[1..])
  }

  /** The rule string of a set of options (rrule's `optionsToString`). */
  function Format(o: Options): string {
    Join(FieldTexts(Parts(o)), ';')
  }

  /** Reading parts already split into key and value, in order. */
  function ApplyParts(ps: seq<Part>, acc: Options): Result<Options, ParseError> {
    if ps == [] then Success(acc)
    else
      match ParseProperty(ps[0].key, ps[0].value, acc)
      case Success(o) => ApplyParts(ps[1..], o)
      case Failure(e) => Failure(e)
  }

  predicate WellFormed(o: Options) {
    o.freq.Some? && forall i :: 0 <= i < |o.bymonthday| ==> ValidMonthDay(o.bymonthday[i])
  }

  // ----- Round trip -----

  lemma WeekdayCodeRoundTrip(w: Weekday)
    ensures WeekdayOfCode(WeekdayCode(w)) == Some(w)
    ensures ';' !in WeekdayCode(w) && ',' !in WeekdayCode(w) && '=' !in WeekdayCode(w)
  {
    match w
    case MO => case TU => case WE => case TH => case FR => case SA => case SU =>
  }

  lemma ParseWeekdaysCons(code: string, rest: seq<string>, w: Weekday, ws: seq<Weekday>)
    requires WeekdayOfCode(code) == Some(w) && ParseWeekdays(rest) == Some(ws)
    ensures ParseWeekdays([code] + rest) == Some([w] + ws)
  {
    assert ([code] + rest)[1..] == rest;
  }

  lemma {:induction false} ParseWeekdaysCodes(ws: seq<Weekday>)
    ensures ParseWeekdays(MapCodes(ws)) == Some(ws)
  {
    if ws != [] {
      assert MapCodes(ws) == [WeekdayCode(ws[0])] + MapCodes(ws[1..]);
      ParseWeekdaysCodes(ws[1..]);
      WeekdayCodeRoundTrip(ws[0]);
      ParseWeekdaysCons(WeekdayCode(ws[0]), MapCodes(ws[1..]), ws[0], ws[1..]);
      assert [ws[0]] + ws[1..] == ws;
    }
  }

  lemma ParseMonthDaysCons(item: string, rest: seq<string>, v: int, vs: seq<int>)
    requires ParseInt(item) == Some(v) && ValidMonthDay(v) && ParseMonthDays(rest) == Some(vs)
    ensures ParseMonthDays([item] + rest) == Some([v] + vs)
  {
    assert ([item] + rest)[1..] == rest;
  }

  lemma {:induction false} ParseMonthDaysInts(vs: seq<int>)
    requires forall i :: 0 <= i < |vs| ==> ValidMonthDay(vs[i])
    ensures ParseMonthDays(MapInts(vs)) == Some(vs)
  {
    if vs != [] {
      assert ValidMonthDay(vs[0]);
      assert MapInts(vs) == [IntToString(vs[0])] + MapInts(vs[1..]);
      ParseMonthDaysInts(vs[1..]);
      ParseIntToString(vs[0]);
      ParseMonthDaysCons(IntToString(vs[0]), MapInts(vs[1..]), vs[0], vs[1..]);
      assert [vs[0]] + vs[1..] == vs;
    }
  }

  lemma IntToStringChars(i: int)
    ensures forall k :: 0 <= k < |IntToString(i)| ==> IntToString(i)[k] == '-' || IsDigit(IntToString(i)[k])
  {
    if i < 0 {
      var s := IntToString(i);
      assert s == "-" + NatToString(-i);
      forall k | 0 <= k < |s| ensures s[k] == '-' || IsDigit(s[k]) {
        if k > 0 {
          assert s[k] == NatToString(-i)[k - 1];
        }
      }
    }
  }

  lemma NoSeparatorsInMonthDays(vs: seq<int>)
    ensures forall i :: 0 <= i < |MapInts(vs)| ==> ';' !in MapInts(vs)[i] && ',' !in MapInts(vs)[i] && '=' !in MapInts(vs)[i]
  {
    forall i | 0 <= i < |vs| ensures ';' !in MapInts(vs)[i] && ',' !in MapInts(vs)[i] && '=' !in MapInts(vs)[i] {
      IntToStringChars(vs[i]);
    }
  }

  lemma NoSeparatorsInCodes(ws: seq<Weekday>)
    ensures forall i :: 0 <= i < |MapCodes(ws)| ==> ';' !in MapCodes(ws)[i] && ',' !in MapCodes(ws)[i] && '=' !in MapCodes(ws)[i]
  {
    forall i | 0 <= i < |ws| ensures ';' !in MapCodes(ws)[i] && ',' !in MapCodes(ws)[i] && '=' !in MapCodes(ws)[i] {
      WeekdayCodeRoundTrip(ws[i]);
    }
  }

  lemma {:induction false} JoinAvoids(parts: seq<string>, sep: char, c: char)
    requires c != sep
    requires forall i :: 0 <= i < |parts| ==> c !in parts[i]
    ensures c !in Join(parts, sep)
  {
    if |parts| > 1 {
      JoinAvoids(parts[1..], sep, c);
    }
  }

  /** A `KEY=VALUE` field whose value holds no '=' splits back into key and value. */
  lemma SplitField(key: string, value: string)
    requires '=' !in key && '=' !in value
    ensures Split(key + "=" + value, '=') == [key, value]
  {
    assert Join([key, value], '=') == key + "=" + value;
    SplitJoin([key, value], '=');
  }

  predicate PartsFree(ps: seq<Part>, c: char) {
    forall i :: 0 <= i < |ps| ==> c !in ps[i].key && c !in ps[i].value
  }

  /** Splitting each field on '=' and reading it is reading the parts. */
  lemma {:induction false} ParseFieldTexts(ps: seq<Part>, acc: Options)
    requires PartsFree(ps, '=')
    ensures ParseFields(FieldTexts(ps), acc) == ApplyParts(ps, acc)
  {
    if ps != [] {
      SplitField(ps[0].key, ps[0].value);
      assert FieldTexts(ps)[1..] == FieldTexts(ps[1..]);
      match ParseProperty(ps[0].key, ps[0].value, acc)
      case Success(o) =>
        ParseFieldTexts(ps[1..], o);
      case Failure(_) =>
    }
  }

  lemma FrequencyNameRoundTrip(f: Frequency)
    ensures FrequencyOf(FrequencyName(f)) == Some(f)
    ensures ';' !in FrequencyName(f) && '=' !in FrequencyName(f)
  {
    match f
    case Yearly => case Monthly => case Weekly => case Daily =>
  }

  lemma ByDayValue(ws: seq<Weekday>)
    requires ws != []
    ensures ';' !in Join(MapCodes(ws), ',') && '=' !in Join(MapCodes(ws), ',')
    ensures ParseWeekdays(Split(Join(MapCodes(ws), ','), ',')) == Some(ws)
  {
    var codes := MapCodes(ws);
    NoSeparatorsInCodes(ws);
    JoinAvoids(codes, ',', ';');
    JoinAvoids(codes, ',', '=');
    SplitJoin(codes, ',');
    ParseWeekdaysCodes(ws);
  }

  lemma ByMonthDayValue(vs: seq<int>)
    requires vs != []
    requires forall i :: 0 <= i < |vs| ==> ValidMonthDay(vs[i])
    ensures ';' !in Join(MapInts(vs), ',') && '=' !in Join(MapInts(vs), ',')
    ensures ParseMonthDays(Split(Join(MapInts(vs), ','), ',')) == Some(vs)
  {
    var items := MapInts(vs);
    NoSeparatorsInMonthDays(vs);
    JoinAvoids(items, ',', ';');
    JoinAvoids(items, ',', '=');
    SplitJoin(items, ',');
    ParseMonthDaysInts(vs);
  }

  lemma PartsFreeAppend(a: seq<Part>, b: seq<Part>, c: char)
    requires PartsFree(a, c) && PartsFree(b, c)
    ensures PartsFree(a + b, c)
  {
    forall i | 0 <= i < |a + b| ensures c !in (a + b)[i].key && c !in (a + b)[i].value {
      if i >= |a| {
        assert (a + b)[i] == b[i - |a|];
      }
    }
  }

  /** Reading one part and then the rest. */
  lemma ApplyPartsCons(p: Part, rest: seq<Part>, acc: Options)
    requires ParseProperty(p.key, p.value, acc).Success?
    ensures ApplyParts([p] + rest, acc) == ApplyParts(rest, ParseProperty(p.key, p.value, acc).value)
  {
    assert ([p] + rest)[1..] == rest;
  }

  lemma FreqProperty(f: Frequency, acc: Options)
    ensures ParseProperty("FREQ", FrequencyName(f), acc) == Success(acc.(freq := Some(f)))
  {
    FrequencyNameRoundTrip(f);
  }

  lemma IntervalProperty(n: Interval, acc: Options)
    ensures ';' !in NatToString(n) && '=' !in NatToString(n)
    ensures ParseProperty("INTERVAL", NatToString(n), acc) == Success(acc.(interval := Some(n)))
  {
    assert AllDigits(NatToString(n));
    ParseNatToString(n);
  }

  lemma ByDayProperty(v: string, ws: seq<Weekday>, acc: Options)
    requires ws != [] && ParseWeekdays(Split(v, ',')) == Some(ws)
    ensures ParseProperty("BYDAY", v, acc) == Success(acc.(byweekday := ws))
  {
  }

  lemma ByMonthDayProperty(v: string, vs: seq<int>, acc: Options)
    requires vs != [] && ParseMonthDays(Split(v, ',')) == Some(vs)
    ensures ParseProperty("BYMONTHDAY", v, acc) == Success(acc.(bymonthday := vs))
  {
  }

  lemma FreqPartFree(o: Options, c: char)
    requires c == ';' || c == '='
    ensures PartsFree(FreqPart(o), c)
  {
    if o.freq.Some? {
      FrequencyNameRoundTrip(o.freq.value);
    }
  }

  lemma IntervalPartFree(o: Options, c: char)
    requires c == ';' || c == '='
    ensures PartsFree(IntervalPart(o), c)
  {
    if o.interval.Some? {
      IntervalProperty(o.interval.value, NoOptions);
    }
  }

  lemma ByDayPartFree(o: Options, c: char)
    requires c == ';' || c == '='
    ensures PartsFree(ByDayPart(o), c)
  {
    if o.byweekday != [] {
      ByDayValue(o.byweekday);
    }
  }

  lemma ByMonthDayPartFree(o: Options, c: char)
    requires WellFormed(o) && (c == ';' || c == '=')
    ensures PartsFree(ByMonthDayPart(o), c)
  {
    if o.bymonthday != [] {
      ByMonthDayValue(o.bymonthday);
    }
  }

  /** The parts of well-formed options hold no ';' or '='. */
  lemma PartsOfFree(o: Options, c: char)
    requires WellFormed(o) && (c == ';' || c == '=')
    ensures PartsFree(Parts(o), c)
  {
    FreqPartFree(o, c);
    IntervalPartFree(o, c);
    ByDayPartFree(o, c);
    ByMonthDayPartFree(o, c);
    PartsFreeAppend(FreqPart(o), IntervalPart(o), c);
    PartsFreeAppend(FreqPart(o) + IntervalPart(o), ByDayPart(o), c);
    PartsFreeAppend(FreqPart(o) + IntervalPart(o) + ByDayPart(o), ByMonthDayPart(o), c);
  }

  /** The parts of well-formed options read back to them. */
  lemma ApplyPartsOf(o: Options)
    requires WellFormed(o)
    ensures ApplyParts(Parts(o), NoOptions) == Success(o)
  {
    var freqP, intP, dayP, mdayP := FreqPart(o), IntervalPart(o), ByDayPart(o), ByMonthDayPart(o);
    assert Parts(o) == freqP + (intP + (dayP + mdayP));

    var o1 := NoOptions.(freq := o.freq);
    var o2 := o1.(interval := o.interval);
    var o3 := o2.(byweekday := o.byweekday);

    if o.bymonthday != [] {
      ByMonthDayValue(o.bymonthday);
      ByMonthDayProperty(mdayP[0].value, o.bymonthday, o3);
      ApplyPartsCons(mdayP[0], [], o3);
    }
    assert ApplyParts(mdayP, o3) == Success(o);
    if o.byweekday != [] {
      ByDayValue(o.byweekday);
      ByDayProperty(dayP[0].value, o.byweekday, o2);
      ApplyPartsCons(dayP[0], mdayP, o2);
    }
    assert ApplyParts(dayP + mdayP, o2) == Success(o);
    if o.interval.Some? {
      IntervalProperty(o.interval.value, o1);
      ApplyPartsCons(intP[0], dayP + mdayP, o1);
    } else {
      assert intP + (dayP + mdayP) == dayP + mdayP;
      assert o2 == o1;
    }
    assert ApplyParts(intP + (dayP + mdayP), o1) == Success(o);
    FreqProperty(o.freq.value, NoOptions);
    ApplyPartsCons(freqP[0], intP + (dayP + mdayP), NoOptions);
  }

  lemma JoinHead(parts: seq<string>, sep: char)
    requires |parts| >= 1 && |parts[0]| >= 1
    ensures |Join(parts, sep)| >= 1 && Join(parts, sep)[0] == parts[0][0]
  {
  }

  lemma ParseUnprefixed(s: string)
    requires |s| >= 1 && s[0] != 'R'
    ensures Parse(s) == ParseFields(Split(s, ';'), NoOptions)
  {
    if |s| >= 6 {
      assert s[..6][0] != "RRULE:"[0];
    }
  }

  /** Reading a formatted rule gives back its options. */
  lemma ParseFormat(o: Options)
    requires WellFormed(o)
    ensures Parse(Format(o)) == Success(o)
  {
    var fs := FieldTexts(Parts(o));
    var s := Format(o);
    PartsOfFree(o, ';');
    PartsOfFree(o, '=');
    assert forall i :: 0 <= i < |fs| ==> ';' !in fs[i];
    SplitJoin(fs, ';');
    assert Split(s, ';') == fs;
    assert s[0] == 'F' by {
      assert Parts(o)[0] == Part("FREQ", FrequencyName(o.freq.value));
      assert fs[0][0] == 'F';
      JoinHead(fs, ';');
    }
    ParseUnprefixed(s);
    ParseFieldTexts(Parts(o), NoOptions);
    ApplyPartsOf(o);
  }
}
