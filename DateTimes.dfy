/**
 * The parts of Python's `datetime` module that the modelled code relies on: naive
 * date-times, times of day, the proleptic Gregorian calendar, `weekday()`, the
 * `strftime` renderings `%Y%m%d` and `%Y %m %d`, `strptime(s, "%Y-%m-%d")`, and a
 * time's `str()` with `time.fromisoformat` reading it back.
 */
module DateTimes {
  import opened Wrappers
  import opened Text

  /** A naive `datetime.datetime`. */
  datatype DateTime = DateTime(year: int, month: int, day: int, hour: int, minute: int, second: int, microsecond: int)

  /** A naive `datetime.time`. */
  datatype TimeOfDay = TimeOfDay(hour: int, minute: int, second: int, microsecond: int)

  /** A `datetime.date`. */
  datatype Date = Date(year: int, month: int, day: int)

  predicate IsLeapYear(y: int) {
    y % 4 == 0 && (y % 100 != 0 || y % 400 == 0)
  }

  function DaysInMonth(y: int, m: int): (n: int)
    requires 1 <= m <= 12
    ensures 28 <= n <= 31
  {
    if m == 2 then (if IsLeapYear(y) then 29 else 28)
    else if m == 4 || m == 6 || m == 9 || m == 11 then 30
    else 31
  }

  /** Between `MINYEAR` and `MAXYEAR`, and a day that exists in its month. */
  predicate ValidDate(d: Date) {
    1 <= d.year <= 9999 && 1 <= d.month <= 12 && 1 <= d.day <= DaysInMonth(d.year, d.month)
  }

  predicate ValidTime(t: TimeOfDay) {
    0 <= t.hour < 24 && 0 <= t.minute < 60 && 0 <= t.second < 60 && 0 <= t.microsecond < 1000000
  }

  /** `dt.date()` */
  function DateOf(dt: DateTime): Date {
    Date(dt.year, dt.month, dt.day)
  }

  /** `dt.time()` */
  function TimeOf(dt: DateTime): TimeOfDay {
    TimeOfDay(dt.hour, dt.minute, dt.second, dt.microsecond)
  }

  predicate ValidDateTime(dt: DateTime) {
    ValidDate(DateOf(dt)) && ValidTime(TimeOf(dt))
  }

  /** `t.replace(microsecond=0)` */
  function WholeSecond(t: TimeOfDay): TimeOfDay {
    t.(microsecond := 0)
  }

  // ---------------------------------------------------------------------------
  // Day numbers and weekdays

  /** Days in the years before `y` (Python's `_days_before_year`). */
  function DaysBeforeYear(y: int): int
    requires y >= 1
  {
    var p := y - 1;
    p * 365 + p / 4 - p / 100 + p / 400
  }

  /** Days in the months of year `y` before month `m` (Python's `_days_before_month`). */
  function DaysBeforeMonth(y: int, m: int): int
    requires 1 <= m <= 12
  {
    [0, 31, 59, 90, 120, 151, 181, 212, 243, 273, 304, 334][m - 1]
      + (if m > 2 && IsLeapYear(y) then 1 else 0)
  }

  /** `d.toordinal()`: 0001-01-01 is day 1. */
  function Ordinal(d: Date): int
    requires ValidDate(d)
  {
    DaysBeforeYear(d.year) + DaysBeforeMonth(d.year, d.month) + d.day
  }

  /** `d.weekday()`: Monday is 0 and Sunday is 6. */
  function Weekday(d: Date): (w: nat)
    requires ValidDate(d)
    ensures w < 7
  {
    (Ordinal(d) + 6) % 7
  }

  /** The calendar day after `d`. */
  function NextDay(d: Date): Date
    requires ValidDate(d)
  {
    if d.day < DaysInMonth(d.year, d.month) then d.(day := d.day + 1)
    else if d.month < 12 then Date(d.year, d.month + 1, 1)
    else Date(d.year + 1, 1, 1)
  }

  /** A year has 366 days exactly when it is a leap year. */
  lemma DaysInYear(y: int)
    requires y >= 1
    ensures DaysBeforeYear(y + 1) - DaysBeforeYear(y) == if IsLeapYear(y) then 366 else 365
  {
    QuotientStep4(y);
    QuotientStep100(y);
    QuotientStep400(y);
    CenturyMultiples(y);
  }

  /** From `y - 1` to `y` the quotient by 4 grows by one exactly at a multiple of 4. */
  lemma QuotientStep4(y: int)
    ensures y / 4 - (y - 1) / 4 == if y % 4 == 0 then 1 else 0
  {
    var q, r := (y - 1) / 4, (y - 1) % 4;
    assert y - 1 == 4 * q + r && 0 <= r < 4;
    if r == 3 {
      assert y == 4 * (q + 1);
    } else {
      assert y == 4 * q + (r + 1);
    }
  }

  lemma QuotientStep100(y: int)
    ensures y / 100 - (y - 1) / 100 == if y % 100 == 0 then 1 else 0
  {
    var q, r := (y - 1) / 100, (y - 1) % 100;
    assert y - 1 == 100 * q + r && 0 <= r < 100;
    if r == 99 {
      assert y == 100 * (q + 1);
    } else {
      assert y == 100 * q + (r + 1);
    }
  }

  lemma QuotientStep400(y: int)
    ensures y / 400 - (y - 1) / 400 == if y % 400 == 0 then 1 else 0
  {
    var q, r := (y - 1) / 400, (y - 1) % 400;
    assert y - 1 == 400 * q + r && 0 <= r < 400;
    if r == 399 {
      assert y == 400 * (q + 1);
    } else {
      assert y == 400 * q + (r + 1);
    }
  }

  /** Every multiple of 400 is one of 100, and every multiple of 100 one of 4. */
  lemma CenturyMultiples(y: int)
    ensures y % 400 == 0 ==> y % 100 == 0
    ensures y % 100 == 0 ==> y % 4 == 0
  {
    var c, h := y / 400, y / 100;
    assert y % 400 == 0 ==> y == 400 * c == 100 * (4 * c);
    assert y % 100 == 0 ==> y == 100 * h == 4 * (25 * h);
  }

  /** Day numbers have no gaps: the next day is the next number. */
  lemma OrdinalNextDay(d: Date)
    requires ValidDate(d) && d != Date(9999, 12, 31)
    ensures ValidDate(NextDay(d)) && Ordinal(NextDay(d)) == Ordinal(d) + 1
  {
    if d.day == DaysInMonth(d.year, d.month) && d.month == 12 {
      DaysInYear(d.year);
    }
  }

  /** Weekdays cycle: the day after a Monday (0) is a Tuesday (1), the day after a Sunday (6) a Monday. */
  lemma WeekdayNextDay(d: Date)
    requires ValidDate(d) && d != Date(9999, 12, 31)
    ensures ValidDate(NextDay(d)) && Weekday(NextDay(d)) == (Weekday(d) + 1) % 7
  {
    OrdinalNextDay(d);
    ModSevenStep(Ordinal(d) + 6);
  }

  lemma ModSevenStep(n: int)
    ensures (n + 1) % 7 == (n % 7 + 1) % 7
  {
  }

  /** 0001-01-01 was a Monday in the proleptic Gregorian calendar. */
  lemma FirstDayIsMonday()
    ensures ValidDate(Date(1, 1, 1)) && Weekday(Date(1, 1, 1)) == 0
  {
  }

  // ---------------------------------------------------------------------------
  // Renderings and readings

  predicate DateLe(a: Date, b: Date) {
    a.year < b.year || (a.year == b.year && (a.month < b.month || (a.month == b.month && a.day <= b.day)))
  }

  /** `d.strftime("%Y%m%d")`, and SQLite's `strftime('%Y%m%d', ...)`. */
  function CompactDate(d: Date): string
    requires ValidDate(d)
  {
    ZeroPadded(d.year, 4) + ZeroPadded(d.month, 2) + ZeroPadded(d.day, 2)
  }

  /** SQLite's `strftime('%Y %m %d', ...)`. */
  function SpacedDate(d: Date): string
    requires ValidDate(d)
  {
    ZeroPadded(d.year, 4) + " " + ZeroPadded(d.month, 2) + " " + ZeroPadded(d.day, 2)
  }

  /** `d.strftime("%Y-%m-%d")`, `str(d)` */
  function IsoDate(d: Date): string
    requires ValidDate(d)
  {
    ZeroPadded(d.year, 4) + "-" + ZeroPadded(d.month, 2) + "-" + ZeroPadded(d.day, 2)
  }

  lemma PaddedFits(d: Date)
    requires ValidDate(d)
    ensures d.year < Pow10(4) && d.month < Pow10(2) && d.day < Pow10(2)
  {
    assert Pow10(2) == 100;
    assert Pow10(4) == 10000;
  }

  /** Two valid dates have the same `%Y%m%d` text exactly when they are the same date. */
  lemma CompactDateInjective(a: Date, b: Date)
    requires ValidDate(a) && ValidDate(b)
    ensures CompactDate(a) == CompactDate(b) <==> a == b
  {
    if CompactDate(a) == CompactDate(b) {
      var s := CompactDate(a);
      assert s[..4] == ZeroPadded(a.year, 4) && s[..4] == CompactDate(b)[..4] == ZeroPadded(b.year, 4);
      assert s[4..6] == ZeroPadded(a.month, 2) && CompactDate(b)[4..6] == ZeroPadded(b.month, 2);
      assert s[6..] == ZeroPadded(a.day, 2) && CompactDate(b)[6..] == ZeroPadded(b.day, 2);
      PaddedFits(a);
      PaddedFits(b);
      ZeroPaddedInjective(a.year, b.year, 4);
      ZeroPaddedInjective(a.month, b.month, 2);
      ZeroPaddedInjective(a.day, b.day, 2);
    }
  }

  /** Texts made of three pieces joined by one separator, with the first two pieces of
      matching lengths, compare piece by piece. */
  lemma ThreePieceOrder(x1: string, x2: string, x3: string, y1: string, y2: string, y3: string, sep: string)
    requires |x1| == |y1| && |x2| == |y2|
    ensures LexLe(x1 + sep + x2 + sep + x3, y1 + sep + y2 + sep + y3) <==>
      (x1 != y1 && LexLe(x1, y1))
      || (x1 == y1 && ((x2 != y2 && LexLe(x2, y2)) || (x2 == y2 && LexLe(x3, y3))))
  {
    assert x1 + sep + x2 + sep + x3 == x1 + (sep + (x2 + (sep + x3)));
    assert y1 + sep + y2 + sep + y3 == y1 + (sep + (y2 + (sep + y3)));
    LexLeConcat(x1, sep + (x2 + (sep + x3)), y1, sep + (y2 + (sep + y3)));
    LexLeConcat(sep, x2 + (sep + x3), sep, y2 + (sep + y3));
    LexLeConcat(x2, sep + x3, y2, sep + y3);
    LexLeConcat(sep, x3, sep, y3);
  }

  /** Zero-padded numbers of one width compare as text the way they compare as numbers. */
  lemma PaddedOrder(a: nat, b: nat, width: nat)
    requires a < Pow10(width) && b < Pow10(width)
    ensures LexLe(ZeroPadded(a, width), ZeroPadded(b, width)) <==> a <= b
    ensures ZeroPadded(a, width) == ZeroPadded(b, width) <==> a == b
  {
    ZeroPaddedValue(a, width);
    ZeroPaddedValue(b, width);
    LexLeDigits(ZeroPadded(a, width), ZeroPadded(b, width));
  }

  /** The text order of `%Y %m %d` renderings is the calendar order of the dates. */
  lemma SpacedDateOrder(a: Date, b: Date)
    requires ValidDate(a) && ValidDate(b)
    ensures LexLe(SpacedDate(a), SpacedDate(b)) <==> DateLe(a, b)
  {
    PaddedFits(a);
    PaddedFits(b);
    PaddedOrder(a.year, b.year, 4);
    PaddedOrder(a.month, b.month, 2);
    PaddedOrder(a.day, b.day, 2);
    ThreePieceOrder(ZeroPadded(a.year, 4), ZeroPadded(a.month, 2), ZeroPadded(a.day, 2),
                    ZeroPadded(b.year, 4), ZeroPadded(b.month, 2), ZeroPadded(b.day, 2), " ");
  }

  /** Year, month and day as `_strptime` reads `%Y-%m-%d`: exactly four digits for `%Y`,
      `1[0-2]|0[1-9]|[1-9]` for `%m`, `3[01]|[12]\d|0[1-9]|[1-9]| [1-9]` for `%d`. */
  predicate IsMonthText(t: string) {
    (|t| == 1 && '1' <= t[0] <= '9')
    || (|t| == 2 && t[0] == '0' && '1' <= t[1] <= '9')
    || (|t| == 2 && t[0] == '1' && '0' <= t[1] <= '2')
  }

  predicate IsDayText(t: string) {
    (|t| == 1 && '1' <= t[0] <= '9')
    || (|t| == 2 && t[0] == ' ' && '1' <= t[1] <= '9')
    || (|t| == 2 && t[0] == '0' && '1' <= t[1] <= '9')
    || (|t| == 2 && (t[0] == '1' || t[0] == '2') && IsDigit(t[1]))
    || (|t| == 2 && t[0] == '3' && (t[1] == '0' || t[1] == '1'))
  }

  function SmallNumber(t: string): nat
    requires IsDayText(t) || IsMonthText(t)
  {
    if |t| == 1 then DigitOf(t[0])
    else if t[0] == ' ' then DigitOf(t[1])
    else DigitsValue(t)
  }

  /** Index of the first '-' in `s` at or after `from`, or `|s|`. */
  function DashFrom(s: string, from: nat): (k: nat)
    requires from <= |s|
    ensures from <= k <= |s| && (k < |s| ==> s[k] == '-')
    ensures forall i :: from <= i < k ==> s[i] != '-'
    decreases |s| - from
  {
    if from == |s| || s[from] == '-' then from else DashFrom(s, from + 1)
  }

  /** `datetime.strptime(s, "%Y-%m-%d")`, as a date: the whole text must be read, and the
      date must exist. */
  function ParseIsoDate(s: string): (r: Result<Date>)
    ensures r.Ok? ==> ValidDate(r.value)
    ensures r.Err? ==> r.error.ValueError?
  {
    if |s| < 5 || !AllDigits(s[..4]) || s[4] != '-' then Err(ValueError("does not match format '%Y-%m-%d'"))
    else
      var k := DashFrom(s, 5);
      if k == |s| || !IsMonthText(s[5..k]) then Err(ValueError("does not match format '%Y-%m-%d'"))
      else if !IsDayText(s[k + 1..]) then Err(ValueError("does not match format '%Y-%m-%d'"))
      else
        var d := Date(DigitsValue(s[..4]), SmallNumber(s[5..k]), SmallNumber(s[k + 1..]));
        if ValidDate(d) then Ok(d) else Err(ValueError("day is out of range for month"))
  }

  /** `strptime` reads back what `strftime("%Y-%m-%d")` writes. */
  lemma ParseIsoDateRoundTrip(d: Date)
    requires ValidDate(d)
    ensures ParseIsoDate(IsoDate(d)) == Ok(d)
  {
    PaddedFits(d);
    var s := IsoDate(d);
    var y, m, dd := ZeroPadded(d.year, 4), ZeroPadded(d.month, 2), ZeroPadded(d.day, 2);
    assert s + [] == s;
    DashedSlices(y, m, dd, []);
    assert s[8..] == dd;
    assert DashFrom(s, 7) == 7 && DashFrom(s, 6) == 7;
    ZeroPaddedValue(d.year, 4);
    MonthTextPadded(d.month);
    DayTextPadded(d.day);
  }

  /** Where the pieces of a `%Y-%m-%d` text lie. */
  lemma DashedSlices(y: string, mo: string, da: string, rest: string)
    requires |y| == 4 && |mo| == 2 && |da| == 2
    ensures var s := y + "-" + mo + "-" + da + rest;
      && |s| == 10 + |rest| && s[..4] == y && s[4] == '-' && s[5..7] == mo && s[7] == '-' && s[8..10] == da
      && s[10..] == rest
  {
  }

  /** A month as `%m` writes it is one `%m` reads. */
  lemma MonthTextPadded(m: nat)
    requires 1 <= m <= 12
    ensures IsMonthText(ZeroPadded(m, 2)) && SmallNumber(ZeroPadded(m, 2)) == m
  {
    TwoDigitFieldValue(ZeroPadded(m, 2), m);
  }

  /** A day as `%d` writes it is one `%d` reads, and does not start with a space. */
  lemma DayTextPadded(n: nat)
    requires 1 <= n <= 31
    ensures IsDayText(ZeroPadded(n, 2)) && ZeroPadded(n, 2)[0] != ' ' && SmallNumber(ZeroPadded(n, 2)) == n
  {
    var t := ZeroPadded(n, 2);
    TwoDigitFieldValue(t, n);
    DayDigits(t, n);
  }

  lemma DayDigits(t: string, n: nat)
    requires 1 <= n <= 31 && |t| == 2 && AllDigits(t) && DigitOf(t[0]) == n / 10 && DigitOf(t[1]) == n % 10
    ensures IsDayText(t) && t[0] != ' '
  {
    assert t[0] as int == '0' as int + n / 10;
    assert t[1] as int == '0' as int + n % 10;
    assert n / 10 == 3 ==> n % 10 <= 1;
  }

  /** `str(t)`, which is `t.isoformat()`: `HH:MM:SS`, with `.ffffff` only when there are microseconds. */
  function IsoTime(t: TimeOfDay): string
    requires ValidTime(t)
  {
    ZeroPadded(t.hour, 2) + ":" + ZeroPadded(t.minute, 2) + ":" + ZeroPadded(t.second, 2)
      + (if t.microsecond == 0 then "" else "." + ZeroPadded(t.microsecond, 6))
  }

  function MakeTime(h: int, m: int, s: int, us: int): (r: Result<TimeOfDay>)
    ensures r.Ok? ==> ValidTime(r.value) && r.value == TimeOfDay(h, m, s, us)
    ensures r.Err? ==> r.error.ValueError?
  {
    var t := TimeOfDay(h, m, s, us);
    if ValidTime(t) then Ok(t) else Err(ValueError("time component out of range"))
  }

  function TwoDigitsAt(s: string, i: nat): (r: Option<nat>)
    ensures r.Some? ==> r.value < 100
  {
    if i + 2 <= |s| && IsDigit(s[i]) && IsDigit(s[i + 1]) then Some(DigitOf(s[i]) * 10 + DigitOf(s[i + 1]))
    else None
  }

  /** `time.fromisoformat(s)` for the texts every supported Python version reads alike:
      `HH`, `HH:MM`, `HH:MM:SS`, `HH:MM:SS.fff` and `HH:MM:SS.ffffff`. Anything else is a
      ValueError, and so is a component out of range. */
  function ParseIsoTime(s: string): (r: Result<TimeOfDay>)
    ensures r.Ok? ==> ValidTime(r.value)
    ensures r.Err? ==> r.error.ValueError?
  {
    var bad := Err(ValueError("Invalid isoformat string"));
    var h := TwoDigitsAt(s, 0);
    if h.None? then bad
    else if |s| == 2 then MakeTime(h.value, 0, 0, 0)
    else if s[2] != ':' then bad
    else
      var m := TwoDigitsAt(s, 3);
      if m.None? then bad
      else if |s| == 5 then MakeTime(h.value, m.value, 0, 0)
      else if s[5] != ':' then bad
      else
        var sec := TwoDigitsAt(s, 6);
        if sec.None? then bad
        else if |s| == 8 then MakeTime(h.value, m.value, sec.value, 0)
        else if s[8] != '.' then bad
        else
          var f := s[9..];
          if |f| == 3 && AllDigits(f) then MakeTime(h.value, m.value, sec.value, DigitsValue(f) * 1000)
          else if |f| == 6 && AllDigits(f) then MakeTime(h.value, m.value, sec.value, DigitsValue(f))
          else bad
  }

  lemma TwoDigitsAtPadded(s: string, i: nat, n: nat)
    requires n < 100 && i + 2 <= |s| && s[i..i + 2] == ZeroPadded(n, 2)
    ensures TwoDigitsAt(s, i) == Some(n)
  {
    var p := ZeroPadded(n, 2);
    TwoDigitFieldValue(p, n);
    assert s[i] == p[0] && s[i + 1] == p[1];
  }

  /** Where the pieces of a `HH:MM:SS` text lie. */
  lemma TimeSlices(hh: string, mm: string, ss: string, tail: string)
    requires |hh| == 2 && |mm| == 2 && |ss| == 2
    ensures var s := hh + ":" + mm + ":" + ss + tail;
      && |s| == 8 + |tail| && s[0..2] == hh && s[2] == ':' && s[3..5] == mm && s[5] == ':' && s[6..8] == ss
      && s[8..] == tail
  {
  }

  /** `time.fromisoformat(str(t)) == t` for every valid time. */
  lemma ParseIsoTimeRoundTrip(t: TimeOfDay)
    requires ValidTime(t)
    ensures ParseIsoTime(IsoTime(t)) == Ok(t)
  {
    var hh, mm, ss := ZeroPadded(t.hour, 2), ZeroPadded(t.minute, 2), ZeroPadded(t.second, 2);
    var s := IsoTime(t);
    var tail := if t.microsecond == 0 then "" else "." + ZeroPadded(t.microsecond, 6);
    TimeSlices(hh, mm, ss, tail);
    TwoDigitsAtPadded(s, 0, t.hour);
    TwoDigitsAtPadded(s, 3, t.minute);
    TwoDigitsAtPadded(s, 6, t.second);
    if t.microsecond != 0 {
      var f := ZeroPadded(t.microsecond, 6);
      assert s[8] == s[8..][0] && s[9..] == s[8..][1..];
      assert s[8] == '.' && s[9..] == f;
      assert Pow10(6) == 1000000;
      ZeroPaddedValue(t.microsecond, 6);
    }
  }

  /** Two valid times with the same `str()` are the same time. */
  lemma IsoTimeInjective(a: TimeOfDay, b: TimeOfDay)
    requires ValidTime(a) && ValidTime(b) && IsoTime(a) == IsoTime(b)
    ensures a == b
  {
    ParseIsoTimeRoundTrip(a);
    ParseIsoTimeRoundTrip(b);
  }

  // ---------------------------------------------------------------------------
  // strptime with '%Y-%m-%d %H:%M:%S' and '%Y-%m-%d %H:%M:%S.%f'

  /** The two formats of a log timestamp. */
  datatype TimestampFormat =
    | WholeSeconds   // '%Y-%m-%d %H:%M:%S'
    | WithFraction   // '%Y-%m-%d %H:%M:%S.%f'

  /** The end of the run of ASCII digits starting at `i`. */
  function DigitRunEnd(s: string, i: nat): (k: nat)
    requires i <= |s|
    ensures i <= k <= |s| && AllDigits(s[i..k]) && (k == |s| || !IsDigit(s[k]))
    decreases |s| - i
  {
    if i < |s| && IsDigit(s[i]) then
      var k := DigitRunEnd(s, i + 1);
      assert s[i..k] == [s[i]] + s[i + 1..k];
      k
    else i
  }

  /** The end of the run of whitespace starting at `i`. */
  function SpaceRunEnd(s: string, i: nat): (k: nat)
    requires i <= |s|
    ensures i <= k <= |s| && (k == |s| || !IsSpace(s[k]))
    ensures forall x :: i <= x < k ==> IsSpace(s[x])
    decreases |s| - i
  {
    if i < |s| && IsSpace(s[i]) then SpaceRunEnd(s, i + 1) else i
  }

  /** `%H`, `%M` and `%S` as `_strptime` reads them: `2[0-3]|[0-1]\d|\d`, `[0-5]\d|\d`
      and `6[0-1]|[0-5]\d|\d`, each followed by something that is not a digit. */
  predicate IsHourText(t: string) {
    (|t| == 1 && IsDigit(t[0]))
    || (|t| == 2 && '0' <= t[0] <= '1' && IsDigit(t[1]))
    || (|t| == 2 && t[0] == '2' && '0' <= t[1] <= '3')
  }

  predicate IsMinuteText(t: string) {
    (|t| == 1 && IsDigit(t[0])) || (|t| == 2 && '0' <= t[0] <= '5' && IsDigit(t[1]))
  }

  predicate IsSecondText(t: string) {
    (|t| == 1 && IsDigit(t[0]))
    || (|t| == 2 && '0' <= t[0] <= '5' && IsDigit(t[1]))
    || (|t| == 2 && t[0] == '6' && '0' <= t[1] <= '1')
  }

  /** `%f`: one to six digits, read as if padded on the right with zeros to six. */
  function FractionValue(f: string): (us: nat)
    requires AllDigits(f) && 1 <= |f| <= 6
    ensures us < 1000000
  {
    assert Pow10(6) == 1000000;
    FractionBound(f);
    DigitsValue(f) * Pow10(6 - |f|)
  }

  lemma {:induction false} Pow10Add(a: nat, b: nat)
    ensures Pow10(a + b) == Pow10(a) * Pow10(b)
  {
    if a > 0 {
      Pow10Add(a - 1, b);
      assert Pow10(a + b) == 10 * Pow10(a - 1 + b);
    }
  }

  lemma MulBelow(v: nat, p: nat, q: nat)
    requires v < p && q >= 1
    ensures v * q < p * q
  {
  }

  lemma FractionBound(f: string)
    requires AllDigits(f) && 1 <= |f| <= 6
    ensures DigitsValue(f) * Pow10(6 - |f|) < Pow10(6)
  {
    Pow10Add(|f|, 6 - |f|);
    MulBelow(DigitsValue(f), Pow10(|f|), Pow10(6 - |f|));
  }

  /** `%Y-%m-%d` at the front of `s`: the three numbers and where the day field ends. The
      day field may also be a space and a digit, the `_strptime` alternative ` [1-9]`. */
  function DateFields(s: string): (r: Option<(Date, nat)>)
    ensures r.Some? ==> r.value.1 <= |s|
  {
    if |s| < 5 || !AllDigits(s[..4]) || s[4] != '-' then None
    else
      var monthEnd := DigitRunEnd(s, 5);
      if monthEnd == |s| || s[monthEnd] != '-' || !IsMonthText(s[5..monthEnd]) then None
      else
        var dayStart := monthEnd + 1;
        var dayEnd :=
          if dayStart + 1 < |s| && s[dayStart] == ' ' && '1' <= s[dayStart + 1] <= '9' then dayStart + 2
          else DigitRunEnd(s, dayStart);
        if !IsDayText(s[dayStart..dayEnd]) then None
        else Some((Date(DigitsValue(s[..4]), SmallNumber(s[5..monthEnd]), SmallNumber(s[dayStart..dayEnd])), dayEnd))
  }

  /** `%S`, and `.%f` after it in the second format, from `i` to the end of `s`: the
      second and the microseconds. */
  function SecondsFields(s: string, i: nat, format: TimestampFormat): (r: Option<(nat, nat)>)
    requires i <= |s|
  {
    var secondEnd := DigitRunEnd(s, i);
    if !IsSecondText(s[i..secondEnd]) then None
    else
      match format
      case WholeSeconds => if secondEnd == |s| then Some((DigitsValue(s[i..secondEnd]), 0)) else None
      case WithFraction =>
        if secondEnd < |s| && s[secondEnd] == '.' then
          var fractionEnd := DigitRunEnd(s, secondEnd + 1);
          var f := s[secondEnd + 1..fractionEnd];
          if fractionEnd == |s| && 1 <= |f| <= 6 then Some((DigitsValue(s[i..secondEnd]), FractionValue(f))) else None
        else None
  }

  /** `%H:%M:%S`, and `.%f` after it in the second format, from `i` to the end of `s`. */
  function ClockFields(s: string, i: nat, format: TimestampFormat): (r: Option<TimeOfDay>)
    requires i <= |s|
  {
    var hourEnd := DigitRunEnd(s, i);
    if hourEnd == |s| || s[hourEnd] != ':' || !IsHourText(s[i..hourEnd]) then None
    else
      var minuteEnd := DigitRunEnd(s, hourEnd + 1);
      if minuteEnd == |s| || s[minuteEnd] != ':' || !IsMinuteText(s[hourEnd + 1..minuteEnd]) then None
      else
        match SecondsFields(s, minuteEnd + 1, format)
        case None => None
        case Some((second, microsecond)) =>
          Some(TimeOfDay(DigitsValue(s[i..hourEnd]), DigitsValue(s[hourEnd + 1..minuteEnd]), second, microsecond))
  }

  /** `datetime.strptime(s, format)` for the two timestamp formats: every field as its
      `_strptime` alternatives read it, one or more whitespace characters for the format's
      space, the whole text consumed, and a date-time that exists. Every failure is a
      ValueError. */
  function ParseTimestamp(s: string, format: TimestampFormat): (r: Result<DateTime>)
    ensures r.Ok? ==> ValidDateTime(r.value)
    ensures r.Err? ==> r.error.ValueError?
  {
    var bad := Err(ValueError("time data does not match format"));
    match DateFields(s)
    case None => bad
    case Some((d, dayEnd)) =>
      var hourStart := SpaceRunEnd(s, dayEnd);
      if hourStart == dayEnd then bad
      else
        match ClockFields(s, hourStart, format)
        case None => bad
        case Some(t) =>
          var dt := DateTime(d.year, d.month, d.day, t.hour, t.minute, t.second, t.microsecond);
          if ValidDateTime(dt) then Ok(dt) else Err(ValueError("date-time component out of range"))
  }

  /** `dt.strftime('%Y-%m-%d %H:%M:%S')`, and with `'.%f'` six microsecond digits after it. */
  function TimestampText(dt: DateTime, format: TimestampFormat): string
    requires ValidDateTime(dt)
  {
    IsoDate(DateOf(dt)) + " " + ClockText(TimeOf(dt), format)
  }

  /** A digit run that ends where the digits stop. */
  lemma {:induction false} DigitRunEndAt(s: string, i: nat, w: nat)
    requires i + w <= |s| && AllDigits(s[i..i + w]) && (i + w == |s| || !IsDigit(s[i + w]))
    ensures DigitRunEnd(s, i) == i + w
    decreases w
  {
    if w > 0 {
      assert s[i] == s[i..i + w][0];
      assert s[i + 1..i + w] == s[i..i + w][1..];
      DigitRunEndAt(s, i + 1, w - 1);
    }
  }

  lemma TwoDigitFieldValue(t: string, n: nat)
    requires n < 100 && t == ZeroPadded(n, 2)
    ensures DigitsValue(t) == n && DigitOf(t[0]) == n / 10 && DigitOf(t[1]) == n % 10
  {
    assert Pow10(2) == 100;
    ZeroPaddedValue(n, 2);
  }

  /** The fields of `IsoDate(d)`, whatever non-digit follows it. */
  lemma DateFieldsOfIsoDate(d: Date, rest: string)
    requires ValidDate(d) && (rest == [] || !IsDigit(rest[0]))
    ensures DateFields(IsoDate(d) + rest) == Some((d, 10))
  {
    PaddedFits(d);
    var y, mo, da := ZeroPadded(d.year, 4), ZeroPadded(d.month, 2), ZeroPadded(d.day, 2);
    var s := IsoDate(d) + rest;
    DashedSlices(y, mo, da, rest);
    assert 10 == |s| || s[10] == s[10..][0];
    ZeroPaddedValue(d.year, 4);
    MonthTextPadded(d.month);
    DayTextPadded(d.day);
    DateFieldsLayout(s);
  }

  /** `DateFields` over a text laid out as `YYYY-MM-DD`. */
  lemma DateFieldsLayout(s: string)
    requires |s| >= 10 && AllDigits(s[..4]) && s[4] == '-' && s[7] == '-'
    requires AllDigits(s[5..7]) && AllDigits(s[8..10]) && s[8] != ' '
    requires IsMonthText(s[5..7]) && IsDayText(s[8..10]) && (|s| == 10 || !IsDigit(s[10]))
    ensures DateFields(s) == Some((Date(DigitsValue(s[..4]), SmallNumber(s[5..7]), SmallNumber(s[8..10])), 10))
  {
    DigitRunEndAt(s, 5, 2);
    DigitRunEndAt(s, 8, 2);
  }

  /** `SS`, and `.ffffff` in the second format. */
  function SecondsText(t: TimeOfDay, format: TimestampFormat): string
    requires ValidTime(t)
  {
    ZeroPadded(t.second, 2) + (match format case WholeSeconds => "" case WithFraction => "." + ZeroPadded(t.microsecond, 6))
  }

  /** `HH:MM:SS`, and `.ffffff` in the second format. */
  function ClockText(t: TimeOfDay, format: TimestampFormat): string
    requires ValidTime(t)
  {
    ZeroPadded(t.hour, 2) + ":" + ZeroPadded(t.minute, 2) + ":" + SecondsText(t, format)
  }

  /** The seconds field and the fraction at the end of `s`. */
  lemma SecondsFieldsOfText(front: string, t: TimeOfDay, format: TimestampFormat)
    requires ValidTime(t) && (format == WholeSeconds ==> t.microsecond == 0)
    ensures SecondsFields(front + SecondsText(t, format), |front|, format) == Some((t.second, t.microsecond))
  {
    var ss := ZeroPadded(t.second, 2);
    var s := front + SecondsText(t, format);
    var i := |front|;
    match format {
      case WholeSeconds =>
        assert s == front + ss;
        SliceAfter(front, ss);
        SecondsFieldsWhole(s, i, t.second);
      case WithFraction =>
        var f := ZeroPadded(t.microsecond, 6);
        var u := ss + ("." + f);
        assert s == front + u;
        SliceAfter(front, u);
        assert u[..2] == ss && u[2] == '.' && u[3..] == f;
        assert s[i..i + 2] == u[..2] && s[i + 2] == u[2] && s[i + 3..] == u[3..];
        SecondsFieldsFraction(s, i, t.second, t.microsecond);
    }
  }

  lemma SliceAfter(front: string, x: string)
    ensures (front + x)[|front|..] == x && (front + x)[|front|..|front| + |x|] == x
  {
  }

  lemma SecondsFieldsWhole(s: string, i: nat, n: nat)
    requires n < 60 && i + 2 == |s| && s[i..i + 2] == ZeroPadded(n, 2)
    ensures SecondsFields(s, i, WholeSeconds) == Some((n, 0))
  {
    DigitRunEndAt(s, i, 2);
    TwoDigitFieldValue(ZeroPadded(n, 2), n);
  }

  lemma SecondsFieldsFraction(s: string, i: nat, n: nat, us: nat)
    requires n < 60 && us < 1000000 && i + 9 == |s|
    requires s[i..i + 2] == ZeroPadded(n, 2) && s[i + 2] == '.' && s[i + 3..] == ZeroPadded(us, 6)
    ensures SecondsFields(s, i, WithFraction) == Some((n, us))
  {
    var f := ZeroPadded(us, 6);
    DigitRunEndAt(s, i, 2);
    assert s[i + 3..i + 9] == f;
    DigitRunEndAt(s, i + 3, 6);
    TwoDigitFieldValue(ZeroPadded(n, 2), n);
    assert Pow10(6) == 1000000 && Pow10(0) == 1;
    ZeroPaddedValue(us, 6);
    assert FractionValue(f) == us;
  }

  /** Where the pieces of a clock text after `front` lie. */
  lemma ColonSlices(front: string, hh: string, mm: string, rest: string)
    requires |hh| == 2 && |mm| == 2
    ensures var s, i := front + (hh + ":" + mm + ":" + rest), |front|;
      && s[i..i + 2] == hh && s[i + 2] == ':' && s[i + 3..i + 5] == mm && s[i + 5] == ':'
      && s == (front + hh + ":" + mm + ":") + rest && |front + hh + ":" + mm + ":"| == i + 6
  {
  }

  /** The fields of a clock text at the end of `s`. */
  lemma ClockFieldsOfClockText(front: string, t: TimeOfDay, format: TimestampFormat)
    requires ValidTime(t) && (format == WholeSeconds ==> t.microsecond == 0)
    ensures ClockFields(front + ClockText(t, format), |front|, format) == Some(t)
  {
    var hh, mi := ZeroPadded(t.hour, 2), ZeroPadded(t.minute, 2);
    var s := front + ClockText(t, format);
    var i := |front|;
    ColonSlices(front, hh, mi, SecondsText(t, format));
    DigitRunEndAt(s, i, 2);
    DigitRunEndAt(s, i + 3, 2);
    TwoDigitFieldValue(hh, t.hour);
    TwoDigitFieldValue(mi, t.minute);
    assert IsHourText(hh) && IsMinuteText(mi);
    SecondsFieldsOfText(front + hh + ":" + mi + ":", t, format);
  }

  /** `strptime` reads back what `strftime` writes with the same format; with
      '%Y-%m-%d %H:%M:%S' the microseconds must be 0, since that format drops them. */
  lemma ParseTimestampRoundTrip(dt: DateTime, format: TimestampFormat)
    requires ValidDateTime(dt) && (format == WholeSeconds ==> dt.microsecond == 0)
    ensures ParseTimestamp(TimestampText(dt, format), format) == Ok(dt)
  {
    var d, t := DateOf(dt), TimeOf(dt);
    var clock := ClockText(t, format);
    var date := IsoDate(d);
    assert |date| == 10 && IsDigit(clock[0]);
    DateFieldsOfIsoDate(d, " " + clock);
    ClockFieldsOfClockText(date + " ", t, format);
    JoinedTimestamp(date, clock, d, t, format);
  }

  /** `ParseTimestamp` of a date text, a space and a clock text, each read on its own. */
  lemma JoinedTimestamp(date: string, clock: string, d: Date, t: TimeOfDay, format: TimestampFormat)
    requires |date| == 10 && |clock| > 0 && IsDigit(clock[0])
    requires DateFields(date + (" " + clock)) == Some((d, 10))
    requires ClockFields(date + " " + clock, 11, format) == Some(t)
    requires ValidDateTime(DateTime(d.year, d.month, d.day, t.hour, t.minute, t.second, t.microsecond))
    ensures ParseTimestamp(date + " " + clock, format) == Ok(DateTime(d.year, d.month, d.day, t.hour, t.minute, t.second, t.microsecond))
  {
    var s := date + " " + clock;
    assert s == date + (" " + clock);
    assert s[10] == ' ' && s[11] == clock[0];
    ParseTimestampOfParts(s, d, t, format);
  }

  /** `ParseTimestamp` once the date has been read up to 10 and the clock from 11. */
  lemma ParseTimestampOfParts(s: string, d: Date, t: TimeOfDay, format: TimestampFormat)
    requires DateFields(s) == Some((d, 10)) && 11 < |s| && s[10] == ' ' && !IsSpace(s[11])
    requires ClockFields(s, 11, format) == Some(t)
    requires ValidDateTime(DateTime(d.year, d.month, d.day, t.hour, t.minute, t.second, t.microsecond))
    ensures ParseTimestamp(s, format) == Ok(DateTime(d.year, d.month, d.day, t.hour, t.minute, t.second, t.microsecond))
  {
    assert SpaceRunEnd(s, 11) == 11;
  }

  /** The fixed layout of a timestamp text: digits, with `-` at 4 and 7, a space at 10, `:`
      at 13 and 16, and in the second format `.` at 19. */
  lemma TimestampTextLayout(dt: DateTime, format: TimestampFormat)
    requires ValidDateTime(dt)
    ensures var s := TimestampText(dt, format);
      && |s| == (if format == WithFraction then 26 else 19)
      && s[4] == '-' && s[7] == '-' && s[10] == ' ' && s[13] == ':' && s[16] == ':'
      && (format == WithFraction ==> s[19] == '.')
      && forall x :: 0 <= x < |s| && x !in {4, 7, 10, 13, 16, 19} ==> IsDigit(s[x])
  {
    var s := TimestampText(dt, format);
    var y, mo, da := ZeroPadded(dt.year, 4), ZeroPadded(dt.month, 2), ZeroPadded(dt.day, 2);
    var hh, mi, ss := ZeroPadded(dt.hour, 2), ZeroPadded(dt.minute, 2), ZeroPadded(dt.second, 2);
    var tail := match format case WholeSeconds => "" case WithFraction => "." + ZeroPadded(dt.microsecond, 6);
    assert s == y + "-" + mo + "-" + da + " " + hh + ":" + mi + ":" + ss + tail;
  }

  /** `strptime` with '%S.%f' rejects a text without the fraction. */
  lemma ParseTimestampNeedsFraction(dt: DateTime)
    requires ValidDateTime(dt)
    ensures ParseTimestamp(TimestampText(dt, WholeSeconds), WithFraction).Err?
  {
    var s := TimestampText(dt, WholeSeconds);
    TimestampTextLayout(dt, WholeSeconds);
    DigitRunEndAt(s, 11, 2);
    DigitRunEndAt(s, 14, 2);
    DigitRunEndAt(s, 17, 2);
    assert SecondsFields(s, 17, WithFraction) == None;
  }

  /** The second format, and only it, writes a `.`. */
  lemma TimestampTextHasDot(dt: DateTime, format: TimestampFormat)
    requires ValidDateTime(dt)
    ensures '.' in TimestampText(dt, format) <==> format == WithFraction
  {
    var s := TimestampText(dt, format);
    TimestampTextLayout(dt, format);
    if format == WholeSeconds {
      forall x | 0 <= x < |s| ensures s[x] != '.' {
        if x !in {4, 7, 10, 13, 16, 19} {
          assert IsDigit(s[x]);
        }
      }
    } else {
      assert s[19] == '.';
    }
  }
}
