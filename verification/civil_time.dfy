/** Access-log timestamps: the `%d/%b/%Y:%H:%M:%S %z` field (for example
    `23/Aug/1995:00:00:01 -0400`), the civil calendar behind it, and the
    local wall-clock minute index that buckets and calendar features use. */
module CivilTime {
  import opened Basics

  /** A parsed timestamp field: calendar date, wall-clock time, and the UTC
      offset in minutes east of Greenwich (`-0400` is -240). */
  datatype Civil = Civil(year: int, month: int, day: int,
                         hour: int, minute: int, second: int, offset: int)

  /** An instant as pandas keeps it for a tz-aware index: seconds since
      1970-01-01 00:00:00 on the local wall clock, plus the offset that turns
      it into UTC. */
  datatype Stamp = Stamp(local: int, offset: int)

  const SecondsPerDay := 86400
  const MinutesPerDay := 1440

  predicate IsLeap(y: int) {
    y % 4 == 0 && (y % 100 != 0 || y % 400 == 0)
  }

  function DaysInMonth(y: int, m: int): (n: int)
    requires 1 <= m <= 12
    ensures 28 <= n <= 31
  {
    if m == 2 then (if IsLeap(y) then 29 else 28)
    else if m == 4 || m == 6 || m == 9 || m == 11 then 30
    else 31
  }

  /** What the `%d/%b/%Y:%H:%M:%S %z` directives can denote: a four-digit
      year, a real day of the month, a time of day without leap seconds,
      and an offset under 24 hours. */
  predicate ValidCivil(c: Civil) {
    && 1 <= c.year <= 9999
    && 1 <= c.month <= 12
    && 1 <= c.day <= DaysInMonth(c.year, c.month)
    && 0 <= c.hour < 24 && 0 <= c.minute < 60 && 0 <= c.second < 60
    && -1440 < c.offset < 1440
  }

  // ---------------------------------------------------------------------
  // Days from the civil calendar
  // ---------------------------------------------------------------------

  /** Days from 1 March of year 0 (proleptic Gregorian) to 1 March of
      year y: years are counted from March so that the leap day is last. */
  function MarchYearStart(y: int): int {
    365 * y + y / 4 - y / 100 + y / 400
  }

  /** Days since 1970-01-01 of the date y-m-d. */
  function DaysFromCivil(y: int, m: int, d: int): int
    requires 1 <= m <= 12
  {
    var y' := if m <= 2 then y - 1 else y;
    var mp := if m > 2 then m - 3 else m + 9;
    MarchYearStart(y') + (153 * mp + 2) / 5 + d - 1 - 719468
  }

  /** The calendar date that follows y-m-d. */
  function NextDate(y: int, m: int, d: int): (r: (int, int, int))
    requires 1 <= m <= 12 && 1 <= d <= DaysInMonth(y, m)
    ensures 1 <= r.1 <= 12 && 1 <= r.2 <= DaysInMonth(r.0, r.1)
  {
    if d < DaysInMonth(y, m) then (y, m, d + 1)
    else if m < 12 then (y, m + 1, 1)
    else (y + 1, 1, 1)
  }

  /** Stepping x by one crosses a multiple of k exactly when x + 1 is one. */
  lemma DivStep(x: int, k: int)
    requires k == 4 || k == 100 || k == 400
    ensures (x + 1) / k - x / k == if (x + 1) % k == 0 then 1 else 0
  {
  }

  /** Multiples of 400 are multiples of 100, which are multiples of 4. */
  lemma DivisorChain(x: int)
    ensures x % 400 == 0 ==> x % 100 == 0
    ensures x % 100 == 0 ==> x % 4 == 0
  {
    if x % 400 == 0 {
      var q := x / 400;
      assert x == (4 * q) * 100 + 0;
      DivOfSum(4 * q, 0, 100);
    }
    if x % 100 == 0 {
      var q := x / 100;
      assert x == (25 * q) * 4 + 0;
      DivOfSum(25 * q, 0, 4);
    }
  }

  /** The year running from March y to February y+1 has 366 days exactly
      when y+1 is a leap year. */
  lemma MarchYearLength(y: int)
    ensures MarchYearStart(y + 1) - MarchYearStart(y) == if IsLeap(y + 1) then 366 else 365
  {
    DivStep(y, 4);
    DivStep(y, 100);
    DivStep(y, 400);
    DivisorChain(y + 1);
  }

  /** Days from 1 March to the first of each month, counted from March. */
  lemma MonthTable(mp: int)
    requires 0 <= mp <= 11
    ensures (153 * mp + 2) / 5 == [0, 31, 61, 92, 122, 153, 184, 214, 245, 275, 306, 337][mp]
  {
  }

  /** Day numbers are consecutive: the next calendar date is the next day. */
  lemma NextDateIsNextDay(y: int, m: int, d: int)
    requires 1 <= m <= 12 && 1 <= d <= DaysInMonth(y, m)
    ensures var n := NextDate(y, m, d); DaysFromCivil(n.0, n.1, n.2) == DaysFromCivil(y, m, d) + 1
  {
    var mp := if m > 2 then m - 3 else m + 9;
    MonthTable(mp);
    if d == DaysInMonth(y, m) {
      if m == 12 {
        MonthTable(10);
      } else {
        MonthTable(if m + 1 > 2 then m - 2 else m + 10);
        if m == 2 {
          MarchYearLength(y - 1);
        }
      }
    }
  }

  /** The Unix epoch is day zero. */
  lemma EpochIsDayZero()
    ensures DaysFromCivil(1970, 1, 1) == 0
  {
    assert MarchYearStart(1969) == 719162;
  }

  // ---------------------------------------------------------------------
  // Stamps, minutes and calendar features
  // ---------------------------------------------------------------------

  function ToStamp(c: Civil): (s: Stamp)
    requires 1 <= c.month <= 12
  {
    Stamp(DaysFromCivil(c.year, c.month, c.day) * SecondsPerDay
          + c.hour * 3600 + c.minute * 60 + c.second, c.offset)
  }

  /** Seconds since the Unix epoch in UTC: what pandas sorts by. */
  function Instant(s: Stamp): int {
    s.local - s.offset * 60
  }

  /** The local wall-clock minute the stamp falls in (floor division, so
      it is also right before 1970). */
  function MinuteOf(s: Stamp): int {
    s.local / 60
  }

  /** `index.hour` of a bucket that starts at local minute m. */
  function HourOf(m: int): (h: int)
    ensures 0 <= h < 24
  {
    (m / 60) % 24
  }

  /** `index.dayofweek` (Monday = 0) of a bucket that starts at local minute
      m; 1970-01-01 was a Thursday. */
  function DayOfWeekOf(m: int): (d: int)
    ensures 0 <= d < 7
  {
    (m / MinutesPerDay + 3) % 7
  }

  /** The hour and weekday features read back the wall-clock hour written in
      the timestamp and the weekday of its date, for any valid timestamp. */
  lemma CalendarFeaturesOfStamp(c: Civil)
    requires ValidCivil(c)
    ensures HourOf(MinuteOf(ToStamp(c))) == c.hour
    ensures DayOfWeekOf(MinuteOf(ToStamp(c))) == (DaysFromCivil(c.year, c.month, c.day) + 3) % 7
  {
    var days := DaysFromCivil(c.year, c.month, c.day);
    var m := days * MinutesPerDay + c.hour * 60 + c.minute;
    assert ToStamp(c).local == m * 60 + c.second;
    DivOfSum(m, c.second, 60);
    assert m == (days * 24 + c.hour) * 60 + c.minute;
    DivOfSum(days * 24 + c.hour, c.minute, 60);
    DivOfSum(days, c.hour, 24);
    assert m == days * MinutesPerDay + (c.hour * 60 + c.minute);
    DivOfSum(days, c.hour * 60 + c.minute, MinutesPerDay);
  }

  lemma WeekdayOfDayStart(days: int)
    ensures DayOfWeekOf(days * MinutesPerDay) == (days + 3) % 7
  {
    DivOfSum(days, 0, MinutesPerDay);
  }

  // ---------------------------------------------------------------------
  // The `%d/%b/%Y:%H:%M:%S %z` field
  // ---------------------------------------------------------------------

  const MonthNames: seq<string> :=
    ["Jan", "Feb", "Mar", "Apr", "May", "Jun", "Jul", "Aug", "Sep", "Oct", "Nov", "Dec"]

  function LowerAscii(c: char): char {
    if 'A' <= c <= 'Z' then (c as int + 32) as char else c
  }

  /** `%b` compares month abbreviations without regard to letter case. */
  predicate SameIgnoringCase(a: string, b: string) {
    && |a| == 3 && |b| == 3
    && LowerAscii(a[0]) == LowerAscii(b[0])
    && LowerAscii(a[1]) == LowerAscii(b[1])
    && LowerAscii(a[2]) == LowerAscii(b[2])
  }

  /** The month number of an English month abbreviation, in any letter case. */
  function MonthOfName(s: string): (r: Option<int>)
    ensures r.Some? ==> 1 <= r.value <= 12 && SameIgnoringCase(s, MonthNames[r.value - 1])
    ensures r.None? ==> forall k :: 0 <= k < 12 ==> !SameIgnoringCase(s, MonthNames[k])
  {
    MonthFrom(s, 0)
  }

  function MonthFrom(s: string, k: nat): (r: Option<int>)
    requires k <= 12
    ensures r.Some? ==> k < r.value <= 12 && SameIgnoringCase(s, MonthNames[r.value - 1])
    ensures r.None? ==> forall j :: k <= j < 12 ==> !SameIgnoringCase(s, MonthNames[j])
    decreases 12 - k
  {
    if k == 12 then None
    else if SameIgnoringCase(s, MonthNames[k]) then Some(k + 1)
    else MonthFrom(s, k + 1)
  }

  /** Each abbreviation names its own month and no earlier one. */
  lemma MonthNameIsFound(m: int)
    requires 1 <= m <= 12
    ensures MonthOfName(MonthNames[m - 1]) == Some(m)
  {
    var r := MonthOfName(MonthNames[m - 1]);
    assert SameIgnoringCase(MonthNames[m - 1], MonthNames[m - 1]);
    assert r.Some?;
    if r.value != m {
      MonthNamesDiffer(r.value - 1, m - 1);
    }
  }

  lemma MonthNamesDiffer(i: int, j: int)
    requires 0 <= i < 12 && 0 <= j < 12 && i != j
    ensures !SameIgnoringCase(MonthNames[i], MonthNames[j])
  {
  }

  /** The fixed layout `dd/Mon/yyyy:HH:MM:SS +hhmm`: separators in place
      and digits where numbers go. */
  predicate WellShaped(s: string) {
    && |s| == 26
    && s[2] == '/' && s[6] == '/' && s[11] == ':' && s[14] == ':' && s[17] == ':'
    && s[20] == ' ' && (s[21] == '+' || s[21] == '-')
    && AllDigits(s[0..2]) && AllDigits(s[7..11]) && AllDigits(s[12..14])
    && AllDigits(s[15..17]) && AllDigits(s[18..20])
    && AllDigits(s[22..24]) && AllDigits(s[24..26])
  }

  /** The whole seconds either side of the epoch that a signed 64-bit count
      of nanoseconds can hold, the resolution `pd.to_datetime` stores. */
  const NanosecondLimit := 9223372036

  /** The wall-clock time lies in the nanosecond range: from 1677-09-21
      00:12:44 to 2262-04-11 23:47:16. Outside it `pd.to_datetime` raises
      OutOfBoundsDatetime. */
  predicate InNanosecondRange(c: Civil) {
    && 1 <= c.month <= 12
    && -NanosecondLimit <= ToStamp(c).local <= NanosecondLimit
  }

  /** The signed offset in minutes written as `+hhmm` or `-hhmm`. */
  function OffsetValue(sign: char, hh: nat, mm: nat): int {
    if sign == '-' then -(hh * 60 + mm) else hh * 60 + mm
  }

  /** Reads a timestamp field of the fixed 26-character form
      `dd/Mon/yyyy:HH:MM:SS +hhmm`; None when the text does not have that
      shape, names no real date, time or offset, or lies outside the
      nanosecond range. */
  function ParseCivil(s: string): (r: Option<Civil>)
    ensures r.Some? ==> ValidCivil(r.value) && InNanosecondRange(r.value)
  {
    if !WellShaped(s) then None
    else
      var month := MonthOfName(s[3..6]);
      if month.None? || DecimalValue(s[24..26]) >= 60 then None
      else
        var c := FieldsOf(s, month.value);
        if ValidCivil(c) && InNanosecondRange(c) then Some(c) else None
  }

  /** The numbers written in a well-shaped field, with the month already
      looked up. */
  function FieldsOf(s: string, month: int): Civil
    requires WellShaped(s)
  {
    Civil(DecimalValue(s[7..11]), month, DecimalValue(s[0..2]),
          DecimalValue(s[12..14]), DecimalValue(s[15..17]), DecimalValue(s[18..20]),
          OffsetValue(s[21], DecimalValue(s[22..24]), DecimalValue(s[24..26])))
  }

  /** `dd/Mon/yyyy` */
  function RenderDate(c: Civil): (s: string)
    requires ValidCivil(c)
    ensures |s| == 11
  {
    PaddedDecimal(c.day, 2) + "/" + MonthNames[c.month - 1] + "/" + PaddedDecimal(c.year, 4)
  }

  /** `HH:MM:SS` */
  function RenderClock(c: Civil): (s: string)
    requires ValidCivil(c)
    ensures |s| == 8
  {
    PaddedDecimal(c.hour, 2) + ":" + PaddedDecimal(c.minute, 2) + ":" + PaddedDecimal(c.second, 2)
  }

  /** The size of an offset, in minutes. */
  function OffsetSize(c: Civil): nat {
    if c.offset < 0 then -c.offset else c.offset
  }

  /** `+hhmm` or `-hhmm` */
  function RenderZone(c: Civil): (s: string)
    requires ValidCivil(c)
    ensures |s| == 5
  {
    [if c.offset < 0 then '-' else '+']
    + PaddedDecimal(OffsetSize(c) / 60, 2) + PaddedDecimal(OffsetSize(c) % 60, 2)
  }

  /** Writes a timestamp field back in the log's own format. */
  function RenderCivil(c: Civil): (s: string)
    requires ValidCivil(c)
    ensures |s| == 26
  {
    RenderDate(c) + ":" + RenderClock(c) + " " + RenderZone(c)
  }

  lemma DateLayout(c: Civil)
    requires ValidCivil(c)
    ensures var s := RenderDate(c);
      && s[2] == '/' && s[6] == '/'
      && s[0..2] == PaddedDecimal(c.day, 2)
      && s[3..6] == MonthNames[c.month - 1]
      && s[7..11] == PaddedDecimal(c.year, 4)
  {
    var s := RenderDate(c);
    var front := PaddedDecimal(c.day, 2) + "/";
    var back := "/" + PaddedDecimal(c.year, 4);
    assert s == front + MonthNames[c.month - 1] + back;
    Parts(front, MonthNames[c.month - 1], back);
    assert s[0..2] == front[0..2];
    assert s[7..11] == back[1..];
  }

  lemma ClockLayout(c: Civil)
    requires ValidCivil(c)
    ensures var s := RenderClock(c);
      && s[2] == ':' && s[5] == ':'
      && s[0..2] == PaddedDecimal(c.hour, 2)
      && s[3..5] == PaddedDecimal(c.minute, 2)
      && s[6..8] == PaddedDecimal(c.second, 2)
  {
    var s := RenderClock(c);
    var front := PaddedDecimal(c.hour, 2) + ":";
    var back := ":" + PaddedDecimal(c.second, 2);
    assert s == front + PaddedDecimal(c.minute, 2) + back;
    Parts(front, PaddedDecimal(c.minute, 2), back);
    assert s[0..2] == front[0..2];
    assert s[6..8] == back[1..];
  }

  lemma ZoneLayout(c: Civil)
    requires ValidCivil(c)
    ensures var s := RenderZone(c);
      && s[0] == (if c.offset < 0 then '-' else '+')
      && s[1..3] == PaddedDecimal(OffsetSize(c) / 60, 2)
      && s[3..5] == PaddedDecimal(OffsetSize(c) % 60, 2)
  {
    var s := RenderZone(c);
    Parts([if c.offset < 0 then '-' else '+'], PaddedDecimal(OffsetSize(c) / 60, 2),
          PaddedDecimal(OffsetSize(c) % 60, 2));
  }

  /** Where each component sits in a rendered timestamp field. */
  lemma RenderedLayout(c: Civil)
    requires ValidCivil(c)
    ensures var s := RenderCivil(c);
      && s[2] == '/' && s[6] == '/' && s[11] == ':' && s[14] == ':' && s[17] == ':'
      && s[20] == ' ' && s[21] == (if c.offset < 0 then '-' else '+')
      && s[0..2] == PaddedDecimal(c.day, 2)
      && s[3..6] == MonthNames[c.month - 1]
      && s[7..11] == PaddedDecimal(c.year, 4)
      && s[12..14] == PaddedDecimal(c.hour, 2)
      && s[15..17] == PaddedDecimal(c.minute, 2)
      && s[18..20] == PaddedDecimal(c.second, 2)
      && s[22..24] == PaddedDecimal(OffsetSize(c) / 60, 2)
      && s[24..26] == PaddedDecimal(OffsetSize(c) % 60, 2)
  {
    var s := RenderCivil(c);
    var date, clock, zone := RenderDate(c), RenderClock(c), RenderZone(c);
    assert s == (date + ":") + clock + (" " + zone);
    Parts(date + ":", clock, " " + zone);
    assert s[..11] == date;
    assert s[21..] == zone;
    DateLayout(c);
    ClockLayout(c);
    ZoneLayout(c);
    SliceInside(s, 0, date, 0, 2);
    SliceInside(s, 0, date, 3, 6);
    SliceInside(s, 0, date, 7, 11);
    SliceInside(s, 12, clock, 0, 2);
    SliceInside(s, 12, clock, 3, 5);
    SliceInside(s, 12, clock, 6, 8);
    SliceInside(s, 21, zone, 1, 3);
    SliceInside(s, 21, zone, 3, 5);
    assert s[2] == date[2] && s[6] == date[6];
    assert s[14] == clock[2] && s[17] == clock[5];
    assert s[21] == zone[0];
  }

  /** The numbers of a rendered field are the timestamp's own. */
  lemma RenderedFields(c: Civil)
    requires ValidCivil(c)
    ensures WellShaped(RenderCivil(c))
    ensures FieldsOf(RenderCivil(c), c.month) == c
    ensures DecimalValue(RenderCivil(c)[24..26]) < 60
  {
    var a := OffsetSize(c);
    var s := RenderCivil(c);
    RenderedLayout(c);
    PaddedRoundTrip(c.day, 2);
    PaddedRoundTrip(c.year, 4);
    PaddedRoundTrip(c.hour, 2);
    PaddedRoundTrip(c.minute, 2);
    PaddedRoundTrip(c.second, 2);
    PaddedRoundTrip(a / 60, 2);
    PaddedRoundTrip(a % 60, 2);
  }

  /** Every valid timestamp in the nanosecond range survives rendering and
      parsing unchanged. */
  lemma CivilRoundTrip(c: Civil)
    requires ValidCivil(c) && InNanosecondRange(c)
    ensures ParseCivil(RenderCivil(c)) == Some(c)
  {
    var s := RenderCivil(c);
    RenderedLayout(c);
    RenderedFields(c);
    MonthNameIsFound(c.month);
  }

  /** 23 August 1995, the first day of the access logs' test month, was
      a Wednesday. */
  lemma ExampleDate()
    ensures DaysFromCivil(1995, 8, 23) == 9365
    ensures DayOfWeekOf(DaysFromCivil(1995, 8, 23) * MinutesPerDay) == 2
  {
    assert MarchYearStart(1995) == 728658;
    WeekdayOfDayStart(9365);
  }

  /** The ends of the nanosecond range: the first and last whole seconds
      pandas can hold are inside it, and the seconds just beyond are not. */
  lemma NanosecondRangeEnds()
    ensures InNanosecondRange(Civil(1677, 9, 21, 0, 12, 44, 0))
    ensures !InNanosecondRange(Civil(1677, 9, 21, 0, 12, 43, 0))
    ensures InNanosecondRange(Civil(2262, 4, 11, 23, 47, 16, 0))
    ensures !InNanosecondRange(Civil(2262, 4, 11, 23, 47, 17, 0))
  {
    assert MarchYearStart(1677) == 612512;
    assert MarchYearStart(2262) == 826178;
  }
}
