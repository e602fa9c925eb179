/** Dates, times of day and their fixed-width text forms, as Python's datetime and SQLite see them. */
module Calendar {
  import opened Wrappers

  /** A date as its proleptic Gregorian ordinal, Python's date.toordinal(): 0001-01-01 is day 1. */
  type Date = int

  const MinutesPerDay := 1440
  const SecondsPerDay := 86400
  const MicrosPerMinute := 60000000
  const MicrosPerDay := 86400000000

  /** A time of day as minutes after midnight, 00:00 .. 23:59. */
  type TimeOfDay = m: int | 0 <= m < 1440
  type Second = s: int | 0 <= s < 60
  type Micros = u: int | 0 <= u < 86400000000

  /** A booking timestamp: what the text 'YYYY-MM-DD HH:MM:SS' of the bookings table denotes. */
  datatype DateTime = DateTime(date: Date, minute: TimeOfDay, second: Second)

  /** The wall clock reading datetime.now(): a date and the microseconds since its midnight. */
  datatype Moment = Moment(date: Date, micros: Micros)

  /** Python's date.weekday(): Monday is 0, Sunday is 6. */
  function Weekday(d: Date): (w: int)
    ensures 0 <= w < 7
    ensures w == 0 <==> d % 7 == 1
  {
    (d + 6) % 7
  }

  /** SQLite's strftime('%w', date): Sunday is 0, Saturday is 6. */
  function SqlWeekday(d: Date): (w: int)
    ensures 0 <= w < 7
  {
    d % 7
  }

  /** The two numberings differ by one: %w is weekday() + 1 modulo 7, so the SQL
      test '%w NOT IN (4, 5, 6)' closes the same Thursday-to-Saturday as weekday() in {3, 4, 5}. */
  lemma SqlWeekdayAgrees(d: Date)
    ensures SqlWeekday(d) == (Weekday(d) + 1) % 7
    ensures SqlWeekday(d) in {4, 5, 6} <==> Weekday(d) in {3, 4, 5}
  {
  }

  /** Seven days later is the same weekday. */
  lemma WeekdayPeriodic(d: Date, k: int)
    ensures Weekday(d + 7 * k) == Weekday(d)
  {
  }

  // ---------------------------------------------------------------------------
  // The Gregorian calendar

  datatype CivilDate = CivilDate(year: int, month: int, day: int)

  predicate IsLeapYear(y: int) {
    y % 4 == 0 && (y % 100 != 0 || y % 400 == 0)
  }

  function DaysInMonth(y: int, m: int): (n: int)
    requires 1 <= m <= 12
    ensures 28 <= n <= 31
    ensures m == 2 ==> (n == 29 <==> IsLeapYear(y))
    ensures m in {4, 6, 9, 11} <==> n == 30
  {
    if m == 2 then (if IsLeapYear(y) then 29 else 28)
    else if m in {4, 6, 9, 11} then 30
    else 31
  }

  /** The dates Python's datetime accepts: years 1 to 9999 and a day the month has. */
  predicate ValidCivil(c: CivilDate) {
    1 <= c.year <= 9999 && 1 <= c.month <= 12 && 1 <= c.day <= DaysInMonth(c.year, c.month)
  }

  /** 29 February exists exactly in leap years. */
  lemma LeapDay(y: int)
    requires 1 <= y <= 9999
    ensures ValidCivil(CivilDate(y, 2, 29)) <==> IsLeapYear(y)
  {
  }

  function DaysBeforeYear(y: int): int {
    var p := y - 1;
    365 * p + p / 4 - p / 100 + p / 400
  }

  function DaysBeforeMonth(y: int, m: int): (n: int)
    requires 1 <= m <= 12
    ensures 0 <= n <= 335
  {
    var cumulative := [0, 31, 59, 90, 120, 151, 181, 212, 243, 273, 304, 334];
    cumulative[m - 1] + (if m > 2 && IsLeapYear(y) then 1 else 0)
  }

  /** date.toordinal() of a valid calendar date. */
  function Ordinal(c: CivilDate): Date
    requires ValidCivil(c)
  {
    DaysBeforeYear(c.year) + DaysBeforeMonth(c.year, c.month) + c.day
  }

  /** The ordinal of 9999-12-31, the last date Python represents. */
  const MaxOrdinal := 3652059

  /** The valid dates are numbered 1 .. MaxOrdinal. */
  lemma OrdinalRange(c: CivilDate)
    requires ValidCivil(c)
    ensures 1 <= Ordinal(c) <= MaxOrdinal
  {
    var p := c.year - 1;
    assert DaysBeforeYear(9999) + 365 == MaxOrdinal;
    if c.year == 9999 {
      assert !IsLeapYear(9999);
    } else {
      assert p / 4 <= 2499 && p / 400 <= 24 && p / 100 <= p / 4;
    }
  }

  /** Ordinals number days consecutively: within a month, the next day is the next ordinal;
      the first of a month follows the last day of the month before, and 1 January the
      31 December before. */
  lemma OrdinalNextDay(c: CivilDate)
    requires ValidCivil(c)
    ensures c.day < DaysInMonth(c.year, c.month) ==>
      Ordinal(CivilDate(c.year, c.month, c.day + 1)) == Ordinal(c) + 1
    ensures c.day == DaysInMonth(c.year, c.month) && c.month < 12 ==>
      Ordinal(CivilDate(c.year, c.month + 1, 1)) == Ordinal(c) + 1
    ensures c.day == 31 && c.month == 12 && c.year < 9999 ==>
      Ordinal(CivilDate(c.year + 1, 1, 1)) == Ordinal(c) + 1
  {
    if c.month < 12 {
      DaysBeforeNextMonth(c.year, c.month);
    }
    if c.month == 12 {
      DaysBeforeNextYear(c.year);
    }
  }

  lemma DaysBeforeNextMonth(y: int, m: int)
    requires 1 <= m < 12
    ensures DaysBeforeMonth(y, m + 1) == DaysBeforeMonth(y, m) + DaysInMonth(y, m)
  {
    var cumulative := [0, 31, 59, 90, 120, 151, 181, 212, 243, 273, 304, 334];
    assert m == 1 || m == 2 || m == 3 || m == 4 || m == 5 || m == 6 || m == 7 || m == 8 || m == 9 || m == 10 || m == 11;
  }

  lemma DaysBeforeNextYear(y: int)
    ensures DaysBeforeYear(y + 1) == DaysBeforeYear(y) + (if IsLeapYear(y) then 366 else 365)
  {
    var p := y - 1;
    DivStep(p, 4);
    DivStep(p, 100);
    DivStep(p, 400);
    assert y % 400 == 0 ==> y % 100 == 0;
    assert y % 100 == 0 ==> y % 4 == 0;
  }

  lemma DivStep(p: int, k: int)
    requires k == 4 || k == 100 || k == 400
    ensures (p + 1) / k == p / k + (if (p + 1) % k == 0 then 1 else 0)
  {
    if k == 4 {
      assert (p + 1) / 4 == p / 4 + (if (p + 1) % 4 == 0 then 1 else 0);
    } else if k == 100 {
      assert (p + 1) / 100 == p / 100 + (if (p + 1) % 100 == 0 then 1 else 0);
    } else {
      assert (p + 1) / 400 == p / 400 + (if (p + 1) % 400 == 0 then 1 else 0);
    }
  }

  // ---------------------------------------------------------------------------
  // Instants and ordering

  /** The microsecond instant of a time of day on a date, counted from the epoch of the ordinals. */
  function MinuteInstant(d: Date, t: TimeOfDay): int {
    d * MicrosPerDay + t * MicrosPerMinute
  }

  function MomentInstant(m: Moment): int {
    m.date * MicrosPerDay + m.micros
  }

  /** The sort key of a timestamp: seconds since the epoch of the ordinals. */
  function AtKey(t: DateTime): int {
    t.date * SecondsPerDay + t.minute * 60 + t.second
  }

  /** Chronological order of timestamps: by date, then minute, then second. */
  predicate Before(a: DateTime, b: DateTime) {
    a.date < b.date
    || (a.date == b.date && a.minute < b.minute)
    || (a.date == b.date && a.minute == b.minute && a.second < b.second)
  }

  /** Sorting by AtKey is sorting chronologically, and equal keys are equal timestamps. */
  lemma AtKeyOrder(a: DateTime, b: DateTime)
    ensures AtKey(a) < AtKey(b) <==> Before(a, b)
    ensures AtKey(a) == AtKey(b) <==> a == b
  {
    if a.date < b.date {
      assert AtKey(a) < (a.date + 1) * SecondsPerDay <= AtKey(b);
    } else if b.date < a.date {
      assert AtKey(b) < (b.date + 1) * SecondsPerDay <= AtKey(a);
    }
  }

  // ---------------------------------------------------------------------------
  // Fixed-width decimal fields

  predicate IsDigit(c: char) {
    '0' <= c <= '9'
  }

  function DigitValue(c: char): (v: int)
    requires IsDigit(c)
    ensures 0 <= v <= 9
  {
    c as int - '0' as int
  }

  function DigitChar(v: int): (c: char)
    requires 0 <= v <= 9
    ensures IsDigit(c) && DigitValue(c) == v
  {
    (v + '0' as int) as char
  }

  /** The two-digit number s[i] s[i+1]. */
  function Num2(s: string, i: nat): (n: int)
    requires i + 2 <= |s| && IsDigit(s[i]) && IsDigit(s[i + 1])
    ensures 0 <= n <= 99
  {
    10 * DigitValue(s[i]) + DigitValue(s[i + 1])
  }

  /** The four-digit number s[i] .. s[i+3]. */
  function Num4(s: string, i: nat): (n: int)
    requires i + 4 <= |s| && IsDigit(s[i]) && IsDigit(s[i + 1]) && IsDigit(s[i + 2]) && IsDigit(s[i + 3])
    ensures 0 <= n <= 9999
  {
    1000 * DigitValue(s[i]) + 100 * DigitValue(s[i + 1]) + 10 * DigitValue(s[i + 2]) + DigitValue(s[i + 3])
  }

  /** strftime's %H, %M, %d, %m: two digits with a leading zero. */
  function Pad2(n: int): (s: string)
    requires 0 <= n <= 99
    ensures |s| == 2 && IsDigit(s[0]) && IsDigit(s[1]) && Num2(s, 0) == n
  {
    [DigitChar(n / 10), DigitChar(n % 10)]
  }

  /** strftime's %Y: four digits with leading zeros. */
  function Pad4(n: int): (s: string)
    requires 0 <= n <= 9999
    ensures |s| == 4 && IsDigit(s[0]) && IsDigit(s[1]) && IsDigit(s[2]) && IsDigit(s[3])
    ensures Num4(s, 0) == n
  {
    Pad2(n / 100) + Pad2(n % 100)
  }

  /** Two digits are the padding of the number they spell. */
  lemma Pad2OfNum2(s: string, i: nat)
    requires i + 2 <= |s| && IsDigit(s[i]) && IsDigit(s[i + 1])
    ensures Pad2(Num2(s, i)) == s[i..i + 2]
  {
    var n := Num2(s, i);
    assert n / 10 == DigitValue(s[i]) && n % 10 == DigitValue(s[i + 1]);
  }

  /** Four digits are the padding of the number they spell. */
  lemma Pad4OfNum4(s: string, i: nat)
    requires i + 4 <= |s| && IsDigit(s[i]) && IsDigit(s[i + 1]) && IsDigit(s[i + 2]) && IsDigit(s[i + 3])
    ensures Pad4(Num4(s, i)) == s[i..i + 4]
  {
    var n := Num4(s, i);
    assert n / 100 == Num2(s, i) && n % 100 == Num2(s, i + 2);
    Pad2OfNum2(s, i);
    Pad2OfNum2(s, i + 2);
  }

  /** Two characters that are the padding of n spell n. */
  lemma Num2OfPad2(s: string, i: nat, n: int)
    requires 0 <= n <= 99 && i + 2 <= |s| && s[i] == Pad2(n)[0] && s[i + 1] == Pad2(n)[1]
    ensures IsDigit(s[i]) && IsDigit(s[i + 1]) && Num2(s, i) == n
  {
  }

  /** Four characters that are the padding of n spell n. */
  lemma Num4OfPad4(s: string, i: nat, n: int)
    requires 0 <= n <= 9999 && i + 4 <= |s|
    requires s[i] == Pad4(n)[0] && s[i + 1] == Pad4(n)[1] && s[i + 2] == Pad4(n)[2] && s[i + 3] == Pad4(n)[3]
    ensures IsDigit(s[i]) && IsDigit(s[i + 1]) && IsDigit(s[i + 2]) && IsDigit(s[i + 3]) && Num4(s, i) == n
  {
  }

  // ---------------------------------------------------------------------------
  // The HH:MM form of a time of day

  /** strftime('%H:%M') of a time of day. */
  function FormatHHMM(t: TimeOfDay): (s: string)
    ensures |s| == 5 && s[2] == ':'
  {
    Pad2(t / 60) + ":" + Pad2(t % 60)
  }

  /** strptime(s, '%H:%M') read strictly: two digits, a colon, two digits, hour below 24,
      minute below 60; None is the ValueError. */
  function ParseHHMM(s: string): Option<TimeOfDay> {
    if |s| == 5 && s[2] == ':' && IsDigit(s[0]) && IsDigit(s[1]) && IsDigit(s[3]) && IsDigit(s[4])
       && Num2(s, 0) < 24 && Num2(s, 3) < 60
    then Some(Num2(s, 0) * 60 + Num2(s, 3))
    else None
  }

  /** Parsing a formatted time gives the time back. */
  lemma ParseFormatHHMM(t: TimeOfDay)
    ensures ParseHHMM(FormatHHMM(t)) == Some(t)
  {
    var s := FormatHHMM(t);
    assert s[0..2] == Pad2(t / 60) && s[3..5] == Pad2(t % 60);
    assert Num2(s, 0) == Num2(Pad2(t / 60), 0);
    assert Num2(s, 3) == Num2(Pad2(t % 60), 0);
  }

  /** Every accepted text is the formatted form of what it parses to. */
  lemma FormatParseHHMM(s: string)
    requires ParseHHMM(s).Some?
    ensures FormatHHMM(ParseHHMM(s).value) == s
  {
    var h, m := Num2(s, 0), Num2(s, 3);
    var t := h * 60 + m;
    assert t / 60 == h && t % 60 == m;
    Pad2OfNum2(s, 0);
    Pad2OfNum2(s, 3);
    assert s == s[0..2] + ":" + s[3..5];
  }

  /** Distinct times have distinct HH:MM keys, so a set of keys is a set of times. */
  lemma FormatHHMMInjective(a: TimeOfDay, b: TimeOfDay)
    ensures FormatHHMM(a) == FormatHHMM(b) <==> a == b
  {
    if FormatHHMM(a) == FormatHHMM(b) {
      ParseFormatHHMM(a);
      ParseFormatHHMM(b);
    }
  }

  /** Lexicographic order of strings, SQLite's default (BINARY) text order for these fields. */
  predicate TextLess(a: string, b: string) {
    exists k :: 0 <= k <= |a| && k <= |b| && a[..k] == b[..k]
      && ((k < |a| && k < |b| && a[k] < b[k]) || (k == |a| && k < |b|))
  }

  /** ORDER BY slot_time on the HH:MM text is the numeric order of the minutes. */
  lemma FormatHHMMOrder(a: TimeOfDay, b: TimeOfDay)
    requires a < b
    ensures TextLess(FormatHHMM(a), FormatHHMM(b))
  {
    var sa, sb := FormatHHMM(a), FormatHHMM(b);
    var ha, hb, ma, mb := a / 60, b / 60, a % 60, b % 60;
    if ha / 10 != hb / 10 {
      assert ha / 10 < hb / 10;
      assert sa[..0] == sb[..0] && sa[0] < sb[0];
    } else if ha % 10 != hb % 10 {
      assert ha % 10 < hb % 10;
      assert sa[..1] == sb[..1] && sa[1] < sb[1];
    } else if ma / 10 != mb / 10 {
      assert ha == hb;
      assert ma / 10 < mb / 10;
      assert sa[..3] == sb[..3] && sa[3] < sb[3];
    } else {
      assert ha == hb && ma % 10 < mb % 10;
      assert sa[..4] == sb[..4] && sa[4] < sb[4];
    }
  }
}
