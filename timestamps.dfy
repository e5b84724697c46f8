/** Time values as ECMA-262 defines them (section 21.4.1): integers of milliseconds since
    1970-01-01T00:00:00Z, at most 8.64e15 away from it. The ISO form that
    `Date.prototype.toISOString` prints, the relative-time wording of the timestamp tool
    (tools/TimestampTool.tsx) and the tool's two handlers. */
module Timestamps {
  import opened JsStrings
  import opened JsNumbers

  const MsPerDay: int := 86_400_000

  /** The bound of TimeClip: a Date holding a larger magnitude is NaN. */
  const MaxTime: int := 8_640_000_000_000_000

  predicate InTimeRange(t: int) { -MaxTime <= t <= MaxTime }

  // ----- days and years (section 21.4.1.3) -----

  predicate IsLeap(y: int) { (y % 4 == 0 && y % 100 != 0) || y % 400 == 0 }

  function DaysInYear(y: int): int { if IsLeap(y) then 366 else 365 }

  /** DayFromYear: the day number of the first day of year `y`. */
  function DayFromYear(y: int): int
  {
    365 * (y - 1970) + (y - 1969) / 4 - (y - 1901) / 100 + (y - 1601) / 400
  }

  /** Consecutive years are DaysInYear apart. */
  lemma DayFromYearStep(y: int)
    ensures DayFromYear(y + 1) == DayFromYear(y) + DaysInYear(y)
  {
    assert (y - 1968) / 4 - (y - 1969) / 4 == (if y % 4 == 0 then 1 else 0);
    assert (y - 1900) / 100 - (y - 1901) / 100 == (if y % 100 == 0 then 1 else 0);
    assert (y - 1600) / 400 - (y - 1601) / 400 == (if y % 400 == 0 then 1 else 0);
  }

  function YearUp(d: int, y: int): (r: int)
    requires DayFromYear(y) <= d
    ensures DayFromYear(r) <= d < DayFromYear(r + 1)
    decreases d - DayFromYear(y)
  {
    DayFromYearStep(y);
    if d < DayFromYear(y + 1) then y else YearUp(d, y + 1)
  }

  function YearDown(d: int, y: int): (r: int)
    requires d < DayFromYear(y + 1)
    ensures DayFromYear(r) <= d < DayFromYear(r + 1)
    decreases DayFromYear(y + 1) - d
  {
    DayFromYearStep(y);
    if DayFromYear(y) <= d then y else YearDown(d, y - 1)
  }

  /** YearFromTime for a day number: the year whose days contain `d`. */
  function YearFromDay(d: int): (y: int)
    ensures DayFromYear(y) <= d < DayFromYear(y + 1)
  {
    assert DayFromYear(1970) == 0;
    if d >= 0 then YearUp(d, 1970) else YearDown(d, 1969)
  }

  // ----- months (section 21.4.1.6) -----

  /** The number of days of the year before month `m` (0 for January). */
  function DaysBeforeMonth(m: nat, leap: bool): nat
    requires m <= 12
  {
    var base :=
      if m < 6 then (if m == 0 then 0 else if m == 1 then 31 else if m == 2 then 59 else if m == 3 then 90 else if m == 4 then 120 else 151)
      else if m < 9 then (if m == 6 then 181 else if m == 7 then 212 else 243)
      else (if m == 9 then 273 else if m == 10 then 304 else if m == 11 then 334 else 365);
    if m >= 2 && leap then base + 1 else base
  }

  function FindMonth(dy: int, leap: bool, m: nat): (r: nat)
    requires m < 12 && DaysBeforeMonth(m, leap) <= dy < DaysBeforeMonth(12, leap)
    ensures m <= r < 12 && DaysBeforeMonth(r, leap) <= dy < DaysBeforeMonth(r + 1, leap)
    decreases 12 - m
  {
    if dy < DaysBeforeMonth(m + 1, leap) then m else FindMonth(dy, leap, m + 1)
  }

  // ----- the fields of a time value -----

  /** Year, month 1-12, day of the month, hour, minute, second and millisecond. */
  datatype DateFields = DateFields(year: int, month: int, day: int, hour: int, minute: int, second: int, ms: int)

  /** YearFromTime, MonthFromTime, DateFromTime, HourFromTime, MinFromTime, SecFromTime and
      msFromTime. Dafny's division by a positive constant rounds down, as these do. */
  function Fields(t: int): (f: DateFields)
    ensures 1 <= f.month <= 12
  {
    var d := t / MsPerDay;
    var y := YearFromDay(d);
    var leap := IsLeap(y);
    var dy := d - DayFromYear(y);
    DayFromYearStep(y);
    var m := FindMonth(dy, leap, 0);
    DateFields(y, m + 1, dy - DaysBeforeMonth(m, leap) + 1, t / 3_600_000 % 24, t / 60_000 % 60, t / 1000 % 60, t % 1000)
  }

  /** The ranges of the fields. */
  lemma FieldRanges(t: int)
    ensures var f := Fields(t);
            1 <= f.day <= 31 && 0 <= f.hour < 24 && 0 <= f.minute < 60 && 0 <= f.second < 60 && 0 <= f.ms < 1000
  {
    var f := Fields(t);
    MonthLength(f.month - 1, IsLeap(f.year));
  }

  /** Every month has 28 to 31 days. */
  lemma MonthLength(m: nat, leap: bool)
    requires m < 12
    ensures 28 <= DaysBeforeMonth(m + 1, leap) - DaysBeforeMonth(m, leap) <= 31
  {
  }

  /** MakeDate(MakeDay(year, month, day), MakeTime(hour, minute, second, ms)). */
  function MakeDate(f: DateFields): int
    requires 1 <= f.month <= 12
  {
    var day := DayFromYear(f.year) + DaysBeforeMonth(f.month - 1, IsLeap(f.year)) + f.day - 1;
    day * MsPerDay + f.hour * 3_600_000 + f.minute * 60_000 + f.second * 1000 + f.ms
  }

  /** The fields of a time value put back together give the time value. */
  lemma FieldsMakeDate(t: int)
    ensures MakeDate(Fields(t)) == t
  {
    var d, w := t / MsPerDay, t % MsPerDay;
    TimeOfDay(t);
  }

  lemma TimeOfDay(t: int)
    ensures t / 3_600_000 % 24 * 3_600_000 + t / 60_000 % 60 * 60_000 + t / 1000 % 60 * 1000 + t % 1000 == t % MsPerDay
  {
    HoursOfDay(t);
    MinutesOfHour(t);
    SecondsOfMinute(t);
  }

  lemma HoursOfDay(t: int)
    ensures t / 3_600_000 % 24 * 3_600_000 + t % 3_600_000 == t % MsPerDay
  {
    var d, w := t / MsPerDay, t % MsPerDay;
    var h, r := w / 3_600_000, w % 3_600_000;
    assert t == (d * 24 + h) * 3_600_000 + r;
    assert t / 3_600_000 == d * 24 + h && t % 3_600_000 == r;
  }

  lemma MinutesOfHour(t: int)
    ensures t / 60_000 % 60 * 60_000 + t % 60_000 == t % 3_600_000
  {
    var d, w := t / 3_600_000, t % 3_600_000;
    var h, r := w / 60_000, w % 60_000;
    assert t == (d * 60 + h) * 60_000 + r;
    assert t / 60_000 == d * 60 + h && t % 60_000 == r;
  }

  lemma SecondsOfMinute(t: int)
    ensures t / 1000 % 60 * 1000 + t % 1000 == t % 60_000
  {
    var d, w := t / 60_000, t % 60_000;
    var h, r := w / 1000, w % 1000;
    assert t == (d * 60 + h) * 1000 + r;
    assert t / 1000 == d * 60 + h && t % 1000 == r;
  }

  /** The day of the month lies within its month. */
  lemma DayWithinMonth(t: int)
    ensures var f := Fields(t);
            DaysBeforeMonth(f.month - 1, IsLeap(f.year)) + f.day <= DaysBeforeMonth(f.month, IsLeap(f.year))
  {
  }

  // ----- toISOString (section 21.4.4.36 and the Date Time String Format, 21.4.1.32) -----

  /** `n` in decimal, zero-padded to `width`. */
  function Padded(n: nat, width: nat): JsString
  {
    PadStartZero(NatToString(n, 10), width)
  }

  /** A year of 0 to 9999 has four digits; any other is a sign and six digits. */
  function YearString(y: int): JsString
  {
    if 0 <= y <= 9999 then Padded(y, 4)
    else (if y < 0 then ['-' as int] else ['+' as int]) + Padded(if y < 0 then -y else y, 6)
  }

  /** `new Date(t).toISOString()`, `YYYY-MM-DDTHH:mm:ss.sssZ`. */
  function IsoString(t: int): JsString
    requires InTimeRange(t)
  {
    var f := Fields(t);
    FieldRanges(t);
    IsoOfParts(YearString(f.year), Padded(f.month, 2), Padded(f.day, 2), Padded(f.hour, 2), Padded(f.minute, 2),
               Padded(f.second, 2), Padded(f.ms, 3))
  }

  function IsoOfParts(year: JsString, month: JsString, day: JsString, hour: JsString, minute: JsString,
                      second: JsString, ms: JsString): JsString
  {
    year + ['-' as int] + month + ['-' as int] + day + ['T' as int] + hour + [':' as int] + minute + [':' as int] +
    second + ['.' as int] + ms + ['Z' as int]
  }

  /** Where the separators fall when the parts have their usual widths. */
  lemma IsoOfPartsShape(year: JsString, month: JsString, day: JsString, hour: JsString, minute: JsString,
                        second: JsString, ms: JsString)
    requires |month| == 2 && |day| == 2 && |hour| == 2 && |minute| == 2 && |second| == 2 && |ms| == 3
    ensures var s, k := IsoOfParts(year, month, day, hour, minute, second, ms), |year| - 4;
            |s| == |year| + 20 &&
            s[k + 4] == '-' as int && s[k + 7] == '-' as int && s[k + 10] == 'T' as int &&
            s[k + 13] == ':' as int && s[k + 16] == ':' as int && s[k + 19] == '.' as int && s[k + 23] == 'Z' as int
  {
  }

  /** A value below 10^width pads to exactly `width` digits. */
  lemma PaddedLength(n: nat, width: nat)
    requires 1 <= width && n < Power(10, width)
    ensures |Padded(n, width)| == width
  {
    NatToStringLength(n, 10, width);
  }

  /** Within years 0 to 9999 the ISO form has 24 characters with its separators in place; the
      remaining years of the range take three more. */
  lemma IsoShape(t: int)
    requires InTimeRange(t)
    ensures var y, s := Fields(t).year, IsoString(t);
            |s| == (if 0 <= y <= 9999 then 24 else 27) &&
            var k := |s| - 24;
            s[k + 4] == '-' as int && s[k + 7] == '-' as int && s[k + 10] == 'T' as int &&
            s[k + 13] == ':' as int && s[k + 16] == ':' as int && s[k + 19] == '.' as int && s[k + 23] == 'Z' as int
  {
    var f := Fields(t);
    FieldRanges(t);
    assert Power(10, 2) == 100 && Power(10, 3) == 1000;
    PaddedLength(f.month, 2);
    PaddedLength(f.day, 2);
    PaddedLength(f.hour, 2);
    PaddedLength(f.minute, 2);
    PaddedLength(f.second, 2);
    PaddedLength(f.ms, 3);
    YearStringLength(f.year, t);
    IsoOfPartsShape(YearString(f.year), Padded(f.month, 2), Padded(f.day, 2), Padded(f.hour, 2), Padded(f.minute, 2),
                    Padded(f.second, 2), Padded(f.ms, 3));
  }

  lemma YearStringLength(y: int, t: int)
    requires InTimeRange(t) && y == Fields(t).year
    ensures |YearString(y)| == (if 0 <= y <= 9999 then 4 else 7)
  {
    if 0 <= y <= 9999 {
      assert Power(10, 4) == 10000;
      PaddedLength(y, 4);
    } else {
      YearBound(t);
      assert Power(10, 6) == 1_000_000;
      PaddedLength(if y < 0 then -y else y, 6);
    }
  }

  /** Every year of the time range has at most six digits. */
  lemma YearBound(t: int)
    requires InTimeRange(t)
    ensures -999_999 <= Fields(t).year <= 999_999
  {
    var d := t / MsPerDay;
    var y := YearFromDay(d);
    assert -100_000_001 <= d <= 100_000_000;
    if y > 999_999 {
      DayFromYearMonotone(999_999, y);
    }
    if y < -999_999 {
      DayFromYearMonotone(y + 1, -999_999);
    }
  }

  lemma {:induction false} DayFromYearMonotone(a: int, b: int)
    requires a <= b
    ensures DayFromYear(a) <= DayFromYear(b)
    decreases b - a
  {
    if a < b {
      DayFromYearStep(b - 1);
      DayFromYearMonotone(a, b - 1);
    }
  }

  // ----- relative time -----

  datatype TimeUnit = Seconds | Minutes | Hours | Days

  /** How far a moment lies from now: an amount of whole units, or None when the amount is
      NaN, and whether it lies in the past. */
  datatype RelativeTime = RelativeTime(amount: Option<nat>, unit: TimeUnit, ago: bool)

  function UnitSeconds(u: TimeUnit): nat
  {
    match u
    case Seconds => 1
    case Minutes => 60
    case Hours => 3600
    case Days => 86400
  }

  /** The relative-time expression of the timestamp tool and the Quick Preview card: whole
      seconds of |diff|, then the largest unit that fits below the next threshold; a NaN
      difference falls through every comparison to days and "from now". */
  function Relative(diff: Option<int>): RelativeTime
  {
    match diff
    case None => RelativeTime(None, Days, false)
    case Some(d) =>
      var seconds := (if d < 0 then -d else d) / 1000;
      var ago := d > 0;
      if seconds < 60 then RelativeTime(Some(seconds), Seconds, ago)
      else if seconds < 3600 then RelativeTime(Some(seconds / 60), Minutes, ago)
      else if seconds < 86400 then RelativeTime(Some(seconds / 3600), Hours, ago)
      else RelativeTime(Some(seconds / 86400), Days, ago)
  }

  /** The amount is the number of whole units in the elapsed seconds, the unit is the largest
      one not above them (seconds for less than a minute), and "ago" means the past. */
  lemma RelativeBuckets(d: int)
    ensures var r := Relative(Some(d));
            var seconds := (if d < 0 then -d else d) / 1000;
            r.amount.Some? && r.ago == (d > 0) &&
            r.amount.value * UnitSeconds(r.unit) <= seconds < (r.amount.value + 1) * UnitSeconds(r.unit) &&
            (r.unit == Seconds <==> seconds < 60) &&
            (r.unit == Minutes <==> 60 <= seconds < 3600) &&
            (r.unit == Hours <==> 3600 <= seconds < 86400) &&
            (r.unit == Days <==> 86400 <= seconds) &&
            (r.unit != Days ==> r.amount.value < (match r.unit case Seconds => 60 case Minutes => 60 case _ => 24))
  {
  }

  /** `${n} seconds ago` and the like, as the timestamp tool words it. */
  function RelativeText(r: RelativeTime): JsString
  {
    var amount := if r.amount.None? then Lit("NaN") else NatToString(r.amount.value, 10);
    var unit := match r.unit
      case Seconds => Lit(" seconds ")
      case Minutes => Lit(" minutes ")
      case Hours => Lit(" hours ")
      case Days => Lit(" days ");
    amount + unit + (if r.ago then Lit("ago") else Lit("from now"))
  }

  // ----- the tool -----

  /** The timestamp tool: the current time in seconds, the timestamp field and the date field. */
  class TimestampTool {
    var now: int
    var inputTs: JsString
    var inputDate: JsString

    /** Both fields start at the current time. The three initial values read the clock
        separately, as `Date.now()` twice and `new Date()` once: `nowMs`, `tsMs` and
        `dateMs`, which may fall on either side of a second boundary. */
    constructor (nowMs: nat, tsMs: nat, dateMs: nat)
      requires dateMs <= MaxTime
      ensures now == nowMs / 1000
      ensures inputTs == IntToString(tsMs / 1000, 10) && inputDate == IsoString(dateMs)
    {
      now := nowMs / 1000;
      inputTs := IntToString(tsMs / 1000, 10);
      inputDate := IsoString(dateMs);
    }

    /** The one-second interval: `now` follows the clock. */
    method Tick(nowMs: nat)
      modifies this
      ensures now == nowMs / 1000 && inputTs == old(inputTs) && inputDate == old(inputDate)
    {
      now := nowMs / 1000;
    }

    /** Typing a timestamp. The field keeps the text; when it starts with an integer, a value
        above 100000000000 is read as milliseconds and any other as seconds. `thrown` is the
        RangeError `toISOString` raises outside the time range, which nothing catches. */
    method HandleTsChange(val: JsString) returns (thrown: bool)
      modifies this
      ensures inputTs == val && now == old(now)
      ensures ParseInt(val, 10).None? ==> !thrown && inputDate == old(inputDate)
      ensures ParseInt(val, 10).Some? ==>
                var ms := TsToMs(ParseInt(val, 10).value);
                (thrown <==> !InTimeRange(ms)) &&
                inputDate == (if InTimeRange(ms) then IsoString(ms) else old(inputDate))
    {
      inputTs := val;
      thrown := false;
      var num := ParseInt(val, 10);
      if num.Some? {
        var ms := TsToMs(num.value);
        if InTimeRange(ms) {
          inputDate := IsoString(ms);
        } else {
          thrown := true;
        }
      }
    }

    /** Typing a date. `parsed` is what `Date.parse` makes of the text, None for NaN; the
        timestamp field then holds its whole seconds, rounded down. */
    method HandleDateChange(val: JsString, parsed: Option<int>)
      modifies this
      ensures inputDate == val && now == old(now)
      ensures inputTs == (if parsed.Some? then IntToString(parsed.value / 1000, 10) else old(inputTs))
    {
      inputDate := val;
      if parsed.Some? {
        inputTs := IntToString(parsed.value / 1000, 10);
      }
    }
  }

  /** The heuristic of `handleTsChange`. */
  function TsToMs(n: int): (ms: int)
    ensures n > 100_000_000_000 ==> ms == n
    ensures n <= 100_000_000_000 ==> ms == n * 1000
  {
    if n > 100_000_000_000 then n else n * 1000
  }

  /** The moment the summary panel shows, `parseInt(inputTs) * 1000`: the field is read with
      no radix, so a `0x` prefix reads as hex, and the value is always taken as seconds. */
  function PanelTime(inputTs: JsString): (t: Option<int>)
    ensures t.None? <==> ParseInt(inputTs, 0).None?
    ensures t.Some? ==> t.value % 1000 == 0 && t.value / 1000 == ParseInt(inputTs, 0).value
  {
    match ParseInt(inputTs, 0)
    case None => None
    case Some(n) => Some(n * 1000)
  }

  /** The panel's relative time, `Date.now() - parseInt(inputTs) * 1000`: NaN when the field
      does not parse, otherwise "ago" iff the panel's moment lies before now. */
  function PanelRelative(nowMs: int, inputTs: JsString): (r: RelativeTime)
    ensures r.amount.None? <==> ParseInt(inputTs, 0).None?
    ensures ParseInt(inputTs, 0).Some? ==> (r.ago <==> 1000 * ParseInt(inputTs, 0).value < nowMs)
  {
    match PanelTime(inputTs)
    case None => Relative(None)
    case Some(t) => Relative(Some(nowMs - t))
  }

  /** A timestamp typed in milliseconds is shown in the date field at that moment, but the
      summary panel multiplies it by 1000 once more. */
  lemma PanelMisreadsMilliseconds(val: JsString)
    requires ParseInt(val, 10).Some? && ParseInt(val, 10).value > 100_000_000_000
    ensures TsToMs(ParseInt(val, 10).value) == ParseInt(val, 10).value
    ensures PanelTime(val) == Some(1000 * TsToMs(ParseInt(val, 10).value))
  {
    ParseIntRadixless(val);
  }

  /** `0x` followed by hex digits: the date field shows the epoch, since `handleTsChange`
      reads the text in radix 10 as 0, while the panel reads the hex value as seconds. */
  lemma PanelReadsHexPrefix(h: JsString)
    requires h != [] && AllDigitsIn(h, 16)
    ensures var val := ['0' as int, 'x' as int] + h;
            ParseInt(val, 10) == Some(0) && TsToMs(0) == 0 &&
            PanelTime(val) == Some(1000 * DigitsValue(h, 16))
  {
    ParseIntHexPrefix(h);
  }
}
