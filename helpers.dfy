/** The date and time string helpers: reformatting a booking timestamp, computing an end time,
    and validating user-typed dates and times. Each Python function either returns a value or
    raises; a raise is None here. strptime is read with a strict fixed-width grammar. */
module Helpers {
  import opened Wrappers
  import opened Calendar

  datatype CivilDateTime = CivilDateTime(date: CivilDate, hour: int, minute: int, second: int)

  predicate ValidCivilDateTime(c: CivilDateTime) {
    ValidCivil(c.date) && 0 <= c.hour < 24 && 0 <= c.minute < 60 && 0 <= c.second < 60
  }

  predicate DigitRun(s: string, i: nat, n: nat) {
    i + n <= |s| && forall k :: i <= k < i + n ==> IsDigit(s[k])
  }

  // ---------------------------------------------------------------------------
  // 'DD.MM.YYYY' (strptime/strftime '%d.%m.%Y')

  function FormatDMY(c: CivilDate): (s: string)
    requires 0 <= c.year <= 9999 && 0 <= c.month <= 99 && 0 <= c.day <= 99
    ensures |s| == 10
  {
    Pad2(c.day) + "." + Pad2(c.month) + "." + Pad4(c.year)
  }

  function ParseDMY(s: string): (r: Option<CivilDate>)
    ensures r.Some? ==> ValidCivil(r.value)
  {
    if |s| == 10 && s[2] == '.' && s[5] == '.' && DigitRun(s, 0, 2) && DigitRun(s, 3, 2) && DigitRun(s, 6, 4)
    then
      var c := CivilDate(Num4(s, 6), Num2(s, 3), Num2(s, 0));
      if ValidCivil(c) then Some(c) else None
    else None
  }

  /** Formatting fields and parsing them back recovers them exactly when they form a real date. */
  lemma ParseFormatDMY(c: CivilDate)
    requires 0 <= c.year <= 9999 && 0 <= c.month <= 99 && 0 <= c.day <= 99
    ensures ParseDMY(FormatDMY(c)) == if ValidCivil(c) then Some(c) else None
  {
    var s := FormatDMY(c);
    assert s[0..2] == Pad2(c.day) && s[3..5] == Pad2(c.month) && s[6..10] == Pad4(c.year);
    assert Num2(s, 0) == Num2(Pad2(c.day), 0);
    assert Num2(s, 3) == Num2(Pad2(c.month), 0);
    assert Num4(s, 6) == Num4(Pad4(c.year), 0);
  }

  /** Every accepted text is the canonical form of the date it parses to. */
  lemma FormatParseDMY(s: string)
    requires ParseDMY(s).Some?
    ensures FormatDMY(ParseDMY(s).value) == s
  {
    Pad2OfNum2(s, 0);
    Pad2OfNum2(s, 3);
    Pad4OfNum4(s, 6);
    assert s == s[0..2] + "." + s[3..5] + "." + s[6..10];
  }

  // ---------------------------------------------------------------------------
  // 'YYYY-MM-DD HH:MM:SS' (strptime '%Y-%m-%d %H:%M:%S'), the stored booking timestamp

  function FormatIso(c: CivilDateTime): (s: string)
    requires ValidCivilDateTime(c)
    ensures |s| == 19
  {
    (Pad4(c.date.year) + "-" + Pad2(c.date.month) + "-" + Pad2(c.date.day))
      + " " + (Pad2(c.hour) + ":" + Pad2(c.minute) + ":" + Pad2(c.second))
  }

  function ParseIso(s: string): (r: Option<CivilDateTime>)
    ensures r.Some? ==> ValidCivilDateTime(r.value)
  {
    if |s| == 19 && s[4] == '-' && s[7] == '-' && s[10] == ' ' && s[13] == ':' && s[16] == ':'
       && DigitRun(s, 0, 4) && DigitRun(s, 5, 2) && DigitRun(s, 8, 2)
       && DigitRun(s, 11, 2) && DigitRun(s, 14, 2) && DigitRun(s, 17, 2)
    then
      var c := CivilDateTime(CivilDate(Num4(s, 0), Num2(s, 5), Num2(s, 8)), Num2(s, 11), Num2(s, 14), Num2(s, 17));
      if ValidCivilDateTime(c) then Some(c) else None
    else None
  }

  /** The date half of a formatted timestamp, position by position. */
  lemma FormatIsoDate(c: CivilDateTime)
    requires ValidCivilDateTime(c)
    ensures var s := FormatIso(c);
      && s[4] == '-' && s[7] == '-' && s[10] == ' '
      && IsDigit(s[0]) && IsDigit(s[1]) && IsDigit(s[2]) && IsDigit(s[3])
      && IsDigit(s[5]) && IsDigit(s[6]) && IsDigit(s[8]) && IsDigit(s[9])
      && Num4(s, 0) == c.date.year && Num2(s, 5) == c.date.month && Num2(s, 8) == c.date.day
  {
    var s := FormatIso(c);
    var y, mo, d := Pad4(c.date.year), Pad2(c.date.month), Pad2(c.date.day);
    assert s[0] == y[0] && s[1] == y[1] && s[2] == y[2] && s[3] == y[3];
    assert s[5] == mo[0] && s[6] == mo[1] && s[8] == d[0] && s[9] == d[1];
    Num4OfPad4(s, 0, c.date.year);
    Num2OfPad2(s, 5, c.date.month);
    Num2OfPad2(s, 8, c.date.day);
  }

  /** The time half of a formatted timestamp, position by position. */
  lemma FormatIsoTime(c: CivilDateTime)
    requires ValidCivilDateTime(c)
    ensures var s := FormatIso(c);
      && s[13] == ':' && s[16] == ':'
      && IsDigit(s[11]) && IsDigit(s[12]) && IsDigit(s[14]) && IsDigit(s[15]) && IsDigit(s[17]) && IsDigit(s[18])
      && Num2(s, 11) == c.hour && Num2(s, 14) == c.minute && Num2(s, 17) == c.second
  {
    var s := FormatIso(c);
    var h, mi, se := Pad2(c.hour), Pad2(c.minute), Pad2(c.second);
    assert s[11] == h[0] && s[12] == h[1] && s[14] == mi[0] && s[15] == mi[1] && s[17] == se[0] && s[18] == se[1];
    Num2OfPad2(s, 11, c.hour);
    Num2OfPad2(s, 14, c.minute);
    Num2OfPad2(s, 17, c.second);
  }

  /** A text of the right shape parses to the fields its digits spell. */
  lemma ParseIsoOfShape(s: string)
    requires |s| == 19 && s[4] == '-' && s[7] == '-' && s[10] == ' ' && s[13] == ':' && s[16] == ':'
    requires IsDigit(s[0]) && IsDigit(s[1]) && IsDigit(s[2]) && IsDigit(s[3])
    requires IsDigit(s[5]) && IsDigit(s[6]) && IsDigit(s[8]) && IsDigit(s[9])
    requires IsDigit(s[11]) && IsDigit(s[12]) && IsDigit(s[14]) && IsDigit(s[15]) && IsDigit(s[17]) && IsDigit(s[18])
    requires ValidCivilDateTime(CivilDateTime(CivilDate(Num4(s, 0), Num2(s, 5), Num2(s, 8)), Num2(s, 11), Num2(s, 14), Num2(s, 17)))
    ensures ParseIso(s) == Some(CivilDateTime(CivilDate(Num4(s, 0), Num2(s, 5), Num2(s, 8)), Num2(s, 11), Num2(s, 14), Num2(s, 17)))
  {
    assert DigitRun(s, 0, 4) && DigitRun(s, 5, 2) && DigitRun(s, 8, 2);
    assert DigitRun(s, 11, 2) && DigitRun(s, 14, 2) && DigitRun(s, 17, 2);
  }

  /** A stored timestamp written out parses back to the same fields. */
  lemma ParseFormatIso(c: CivilDateTime)
    requires ValidCivilDateTime(c)
    ensures ParseIso(FormatIso(c)) == Some(c)
  {
    FormatIsoDate(c);
    FormatIsoTime(c);
    ParseIsoOfShape(FormatIso(c));
  }

  /** What an accepted timestamp text looks like, position by position. */
  lemma IsoShape(s: string)
    requires ParseIso(s).Some?
    ensures |s| == 19 && s[4] == '-' && s[7] == '-' && s[10] == ' ' && s[13] == ':' && s[16] == ':'
    ensures IsDigit(s[0]) && IsDigit(s[1]) && IsDigit(s[2]) && IsDigit(s[3])
    ensures IsDigit(s[5]) && IsDigit(s[6]) && IsDigit(s[8]) && IsDigit(s[9])
    ensures IsDigit(s[11]) && IsDigit(s[12]) && IsDigit(s[14]) && IsDigit(s[15]) && IsDigit(s[17]) && IsDigit(s[18])
    ensures ParseIso(s).value
         == CivilDateTime(CivilDate(Num4(s, 0), Num2(s, 5), Num2(s, 8)), Num2(s, 11), Num2(s, 14), Num2(s, 17))
  {
    assert DigitRun(s, 0, 4) && DigitRun(s, 5, 2) && DigitRun(s, 8, 2);
    assert DigitRun(s, 11, 2) && DigitRun(s, 14, 2) && DigitRun(s, 17, 2);
  }

  /** Every accepted timestamp text is the canonical form of its fields. */
  lemma FormatParseIso(s: string)
    requires ParseIso(s).Some?
    ensures FormatIso(ParseIso(s).value) == s
  {
    IsoShape(s);
    Pad4OfNum4(s, 0);
    Pad2OfNum2(s, 5);
    Pad2OfNum2(s, 8);
    Pad2OfNum2(s, 11);
    Pad2OfNum2(s, 14);
    Pad2OfNum2(s, 17);
    var date, time := s[0..10], s[11..19];
    assert date == s[0..4] + "-" + s[5..7] + "-" + s[8..10];
    assert time == s[11..13] + ":" + s[14..16] + ":" + s[17..19];
    assert s == date + " " + time;
  }

  // ---------------------------------------------------------------------------
  // format_booking_datetime

  /** Rewrites 'YYYY-MM-DD HH:MM:SS' as 'DD.MM.YYYY HH:MM'; None where strptime raises. */
  function FormatBookingDatetime(s: string): (r: Option<string>)
    ensures r.Some? <==> ParseIso(s).Some?
    ensures r.Some? ==>
      var c := ParseIso(s).value;
      && |r.value| == 16
      && ParseDMY(r.value[..10]) == Some(c.date)
      && r.value[10] == ' '
      && ParseHHMM(r.value[11..]) == Some(c.hour * 60 + c.minute)
  {
    match ParseIso(s)
    case None => None
    case Some(c) =>
      var t: TimeOfDay := c.hour * 60 + c.minute;
      var out := FormatDMY(c.date) + " " + FormatHHMM(t);
      ParseFormatDMY(c.date);
      ParseFormatHHMM(t);
      assert out[..10] == FormatDMY(c.date) && out[11..] == FormatHHMM(t);
      Some(out)
  }

  // ---------------------------------------------------------------------------
  // calculate_end_time

  /** Seconds from the epoch of the ordinals to a valid timestamp. */
  function SecondsOf(c: CivilDateTime): int
    requires ValidCivilDateTime(c)
  {
    Ordinal(c.date) * SecondsPerDay + c.hour * 3600 + c.minute * 60 + c.second
  }

  /** An instant Python's datetime can hold: from 0001-01-01 00:00:00 to 9999-12-31 23:59:59. */
  predicate Representable(seconds: int) {
    SecondsPerDay <= seconds < (MaxOrdinal + 1) * SecondsPerDay
  }

  /** The HH:MM at which something starting at the stored timestamp s and lasting the given
      minutes ends, wrapping past midnight; None where strptime raises (bad text) or where the
      addition raises OverflowError (the end leaves the years 1..9999). */
  function CalculateEndTime(s: string, durationMinutes: int): (r: Option<string>)
    ensures r.None? <==> ParseIso(s).None? || !Representable(SecondsOf(ParseIso(s).value) + 60 * durationMinutes)
    ensures r.Some? ==>
      var c := ParseIso(s).value;
      r.value == FormatHHMM((c.hour * 60 + c.minute + durationMinutes) % MinutesPerDay)
  {
    match ParseIso(s)
    case None => None
    case Some(c) =>
      var end := SecondsOf(c) + 60 * durationMinutes;
      if !Representable(end) then None
      else
        ClockOfEnd(Ordinal(c.date), c.hour * 60 + c.minute, c.second, durationMinutes);
        Some(FormatHHMM(end % SecondsPerDay / 60))
  }

  /** The minute of the day on which an instant falls depends only on the start's minute of
      the day and the added minutes, taken modulo a day; the seconds never carry. */
  lemma ClockOfEnd(day: int, startMinute: int, second: int, added: int)
    requires 0 <= second < 60
    ensures (day * SecondsPerDay + startMinute * 60 + second + 60 * added) % SecondsPerDay / 60
            == (startMinute + added) % MinutesPerDay
  {
    var x := startMinute + added;
    var q, r := x / MinutesPerDay, x % MinutesPerDay;
    assert x == q * MinutesPerDay + r && 0 <= r < MinutesPerDay;
    var e := day * SecondsPerDay + startMinute * 60 + second + 60 * added;
    assert e == (day + q) * SecondsPerDay + (60 * r + second);
    assert 0 <= 60 * r + second < SecondsPerDay;
    assert e % SecondsPerDay == 60 * r + second;
  }

  /** Every valid timestamp lies in the representable range. */
  lemma ValidIsRepresentable(c: CivilDateTime)
    requires ValidCivilDateTime(c)
    ensures Representable(SecondsOf(c))
  {
    OrdinalRange(c.date);
  }

  /** A duration that ends within the same day never overflows and gives the plain sum. */
  lemma EndTimeSameDay(s: string, durationMinutes: nat)
    requires ParseIso(s).Some?
    requires ParseIso(s).value.hour * 60 + ParseIso(s).value.minute + durationMinutes < MinutesPerDay
    ensures CalculateEndTime(s, durationMinutes)
            == Some(FormatHHMM(ParseIso(s).value.hour * 60 + ParseIso(s).value.minute + durationMinutes))
  {
    var c := ParseIso(s).value;
    var x := c.hour * 60 + c.minute + durationMinutes;
    OrdinalRange(c.date);
    var end := SecondsOf(c) + 60 * durationMinutes;
    assert end == Ordinal(c.date) * SecondsPerDay + 60 * x + c.second;
    assert 0 <= 60 * x + c.second < SecondsPerDay;
    assert Representable(end);
    assert x % MinutesPerDay == x;
  }

  // ---------------------------------------------------------------------------
  // validate_date and validate_time

  /** validate_date: strptime(s, '%d.%m.%Y') succeeds exactly on the DD.MM.YYYY renderings
      of real calendar dates. */
  function ValidateDate(s: string): (ok: bool)
    ensures ok <==> exists c :: ValidCivil(c) && FormatDMY(c) == s
  {
    assert ParseDMY(s).Some? <==> exists c :: ValidCivil(c) && FormatDMY(c) == s by {
      if ParseDMY(s).Some? {
        FormatParseDMY(s);
      }
      if exists c :: ValidCivil(c) && FormatDMY(c) == s {
        var c :| ValidCivil(c) && FormatDMY(c) == s;
        ParseFormatDMY(c);
      }
    }
    ParseDMY(s).Some?
  }

  /** validate_time: strptime(s, '%H:%M') succeeds exactly on the HH:MM renderings of the
      times 00:00 .. 23:59. */
  function ValidateTime(s: string): (ok: bool)
    ensures ok <==> exists t: TimeOfDay :: FormatHHMM(t) == s
  {
    assert ParseHHMM(s).Some? <==> exists t: TimeOfDay :: FormatHHMM(t) == s by {
      if ParseHHMM(s).Some? {
        FormatParseHHMM(s);
      }
      if exists t: TimeOfDay :: FormatHHMM(t) == s {
        var t: TimeOfDay :| FormatHHMM(t) == s;
        ParseFormatHHMM(t);
      }
    }
    ParseHHMM(s).Some?
  }

  /** validate_date rejects a day the month does not have, and takes 29 February only in leap years. */
  lemma ValidateDateOfFields(c: CivilDate)
    requires 1 <= c.year <= 9999 && 0 <= c.month <= 99 && 0 <= c.day <= 99
    ensures ValidateDate(FormatDMY(c)) <==> ValidCivil(c)
    ensures c.month == 2 && c.day == 29 ==> (ValidateDate(FormatDMY(c)) <==> IsLeapYear(c.year))
  {
    ParseFormatDMY(c);
  }

  /** validate_time checks the hour and the minute ranges, both ways. */
  lemma ValidateTimeRanges(h: int, m: int)
    requires 0 <= h <= 99 && 0 <= m <= 99
    ensures ValidateTime(Pad2(h) + ":" + Pad2(m)) <==> h < 24 && m < 60
  {
    var s := Pad2(h) + ":" + Pad2(m);
    assert s[0..2] == Pad2(h) && s[3..5] == Pad2(m);
    assert Num2(s, 0) == Num2(Pad2(h), 0);
    assert Num2(s, 3) == Num2(Pad2(m), 0);
  }
}
