/**
 * The date rules of the service: a hire date must be a weekday no later
 * than today; a timecard's start must lie in the week up to now, its end at
 * least an hour after the start on the same day of the same month.
 *
 * A validator wraps one date format whose leniency is state: a fresh format
 * is lenient, and IsValid switches it to non-lenient for good, so what a later
 * parse accepts depends on the calls made before it. The clock is the
 * parameter `now`, in local epoch milliseconds.
 */
module DateValidation {
  import opened Wrappers
  import opened Calendar
  import opened DateFormat

  /**
   * Whether checkHireDate accepts the string: it parses (in the validator's
   * current mode), its day of week is Monday to Friday, and it is no later
   * than today's midnight.
   */
  function HireDateAccepted(p: Pattern, lenient: bool, hireDate: string, now: int): (ok: bool)
    ensures ok ==> Shaped(p, hireDate) && (lenient || InRange(Recognize(p, hireDate).value))
    ensures ok ==> Parse(p, lenient, hireDate).value <= now
  {
    match Parse(p, lenient, hireDate)
    case None => false
    case Some(hire) =>
      var weekday := DayOfWeek(hire / MsPerDay);
      Monday <= weekday <= Friday && hire <= Truncate(p, now)
  }

  /**
   * Whether validateTimestamps accepts the pair: both parse non-leniently,
   * the start lies in [now - one week, now] (now truncated to the second by
   * the pattern), the end is at least one hour after the start, and the two
   * share day of month and month. The day and month are those written in
   * the strings: for a non-lenient parse they are the calendar fields of the
   * parsed instant (FieldsOfInstant).
   */
  function TimestampsAccepted(p: Pattern, start: string, end: string, now: int): (ok: bool)
    ensures ok ==> Shaped(p, start) && InRange(Recognize(p, start).value)
    ensures ok ==> Shaped(p, end) && InRange(Recognize(p, end).value)
    ensures ok ==> now - MsPerWeek - Unit(p) < Parse(p, false, start).value <= now
  {
    match (Parse(p, false, start), Parse(p, false, end))
    case (Some(s), Some(e)) =>
      var fs, fe := Recognize(p, start).value, Recognize(p, end).value;
      var current := Truncate(p, now);
      && current - MsPerWeek <= s <= current
      && e >= s + MsPerHour
      && fs.day == fe.day
      && fs.month == fe.month
    case _ => false
  }

  class DateValidator {
    const pattern: Pattern
    var lenient: bool

    /** A new SimpleDateFormat is lenient. */
    constructor(pattern: Pattern)
      ensures this.pattern == pattern && lenient
    {
      this.pattern := pattern;
      lenient := true;
    }

    /** Switches the format to non-lenient mode and reports whether the string parses. */
    method IsValid(date: string) returns (ok: bool)
      modifies this
      ensures !lenient
      ensures ok <==> Shaped(pattern, date) && InRange(Recognize(pattern, date).value)
    {
      lenient := false;
      var parsed := Parse(pattern, lenient, date);
      ok := parsed.Some?;
    }

    method CheckHireDate(hireDate: string, now: int) returns (ok: bool)
      ensures ok == HireDateAccepted(pattern, lenient, hireDate, now)
    {
      var current := Truncate(pattern, now);
      var hire := Parse(pattern, lenient, hireDate);
      if hire.None? {
        return false;
      }
      var hireTime := hire.value;
      var hireDay := DayOfWeek(hireTime / MsPerDay);
      ok := Monday <= hireDay <= Friday && hireTime <= current;
    }

    method ValidateTimestamps(start: string, end: string, now: int) returns (ok: bool)
      modifies this
      ensures !lenient
      ensures ok == TimestampsAccepted(pattern, start, end, now)
    {
      var valid := IsValid(start);
      if valid {
        valid := IsValid(end);
      }
      if !valid {
        return false;
      }
      var current := Truncate(pattern, now);
      var currMinusOneWeek := current - MsPerWeek;
      var startTime := Parse(pattern, lenient, start).value;
      var endTime := Parse(pattern, lenient, end).value;
      var fs, fe := Recognize(pattern, start).value, Recognize(pattern, end).value;
      FieldsOfInstant(fs);
      FieldsOfInstant(fe);
      assert FieldsOf(startTime) == fs && FieldsOf(endTime) == fe;
      var startTimePlusOneHour := startTime + MsPerHour;
      ok := false;
      if startTime >= currMinusOneWeek && startTime <= current {
        var startDay, endDay := FieldsOf(startTime).day, FieldsOf(endTime).day;
        var startMonth, endMonth := FieldsOf(startTime).month, FieldsOf(endTime).month;
        if endTime >= startTimePlusOneHour && startDay == endDay && startMonth == endMonth {
          ok := true;
        }
      }
    }

    /** DateFormat.parse in the current mode; None stands for null after a ParseException. */
    method StringToDate(date: string) returns (r: Option<int>)
      ensures r == Parse(pattern, lenient, date)
      ensures r.None? <==> !Shaped(pattern, date) || (!lenient && !InRange(Recognize(pattern, date).value))
      ensures r.Some? ==> r.value == Instant(Recognize(pattern, date).value)
    {
      r := Parse(pattern, lenient, date);
    }
  }

  /**
   * checkHireDate on a "yyyy-MM-dd" string, day by day: the (possibly rolled
   * over) day must be Monday to Friday and not after today; in non-lenient
   * mode the fields must also be in range.
   */
  lemma HireDateByDay(lenient: bool, hireDate: string, now: int)
    requires Shaped(DatePattern, hireDate)
    ensures var f := Recognize(DatePattern, hireDate).value;
      var day := LenientEpochDay(f.year, f.month, f.day);
      HireDateAccepted(DatePattern, lenient, hireDate, now) <==>
        (lenient || InRange(f)) && Monday <= DayOfWeek(day) <= Friday && day <= now / MsPerDay
  {
    var f := Recognize(DatePattern, hireDate).value;
    var day := LenientEpochDay(f.year, f.month, f.day);
    assert Instant(f) == day * 86400000;
    assert Instant(f) / 86400000 == day;
    assert Truncate(DatePattern, now) == now / 86400000 * 86400000;
    assert day * 86400000 <= now / 86400000 * 86400000 <==> day <= now / 86400000;
  }

  /**
   * validateTimestamps on two "yyyy-MM-dd HH:mm:ss" strings, field by field:
   * both in range, the start's instant in the week up to now, the end at
   * least an hour later, and the same day of month and month as written in
   * the strings (the years are never compared).
   */
  lemma TimestampsByFields(start: string, end: string, now: int)
    requires Shaped(TimestampPattern, start) && Shaped(TimestampPattern, end)
    ensures var fs, fe := Recognize(TimestampPattern, start).value, Recognize(TimestampPattern, end).value;
      var current := Truncate(TimestampPattern, now);
      TimestampsAccepted(TimestampPattern, start, end, now) <==>
        (&& InRange(fs) && InRange(fe)
         && current - MsPerWeek <= Instant(fs) <= current
         && Instant(fe) >= Instant(fs) + MsPerHour
         && fs.day == fe.day && fs.month == fe.month)
  {
    var fs, fe := Recognize(TimestampPattern, start).value, Recognize(TimestampPattern, end).value;
    if InRange(fs) && InRange(fe) {
      FieldsOfInstant(fs);
      FieldsOfInstant(fe);
    }
  }

  /** The instant of the same date and time one year later is at least 365 days later. */
  lemma NextYearLater(fs: Fields, fe: Fields)
    requires InRange(fs) && InRange(fe)
    requires fe == fs.(year := fs.year + 1)
    ensures Instant(fe) >= Instant(fs) + 365 * 86400000
  {
    var ds, de := Date(fs.year, fs.month, fs.day), Date(fe.year, fe.month, fe.day);
    YearStartStep(fs.year);
    assert EpochDay(de) >= EpochDay(ds) + 365;
  }

  /**
   * The years of the two timestamps are never compared and the end has no
   * upper bound: an end on the same day and month one year after an
   * acceptable start is accepted, although it lies a year after now.
   */
  lemma YearsNotCompared(fs: Fields, now: int)
    requires InRange(fs) && InRange(fs.(year := fs.year + 1)) && fs.year + 1 < 10000
    requires Truncate(TimestampPattern, now) - MsPerWeek <= Instant(fs) <= Truncate(TimestampPattern, now)
    ensures var fe := fs.(year := fs.year + 1);
      && TimestampsAccepted(TimestampPattern, Format(TimestampPattern, fs), Format(TimestampPattern, fe), now)
      && Instant(fe) > now
  {
    var fe := fs.(year := fs.year + 1);
    var start, end := Format(TimestampPattern, fs), Format(TimestampPattern, fe);
    RecognizeFormat(TimestampPattern, fs);
    RecognizeFormat(TimestampPattern, fe);
    NextYearLater(fs, fe);
    assert TimestampsAccepted(TimestampPattern, start, end, now) by {
      TimestampsByFields(start, end, now);
    }
    assert now < Truncate(TimestampPattern, now) + 1000;
  }

  /**
   * A fresh validator is lenient and checkHireDate never makes it strict:
   * 30 February 2024 rolls over to Friday 1 March 2024 and is accepted once
   * that day has come, while a non-lenient validator rejects the string.
   */
  lemma HireDateRollsOver(feb: string, mar: string, now: int)
    requires feb == "2024-02-30" && mar == "2024-03-01"
    requires EpochDay(Date(2024, 3, 1)) <= now / 86400000
    ensures HireDateAccepted(DatePattern, true, feb, now)
    ensures !HireDateAccepted(DatePattern, false, feb, now)
    ensures Parse(DatePattern, true, feb) == Parse(DatePattern, true, mar)
  {
    RecognizeDateLiteral(feb, 2024, 2, 30);
    RecognizeDateLiteral(mar, 2024, 3, 1);
    FirstOfMarch2024();
    HireDateByDay(true, feb, now);
  }

  lemma FirstOfMarch2024()
    ensures LenientEpochDay(2024, 2, 30) == LenientEpochDay(2024, 3, 1) == EpochDay(Date(2024, 3, 1)) == 19783
    ensures DayOfWeek(19783) == Friday
  {
    assert LeapYearsBefore(2024) == 490 && LeapYearsBefore(1970) == 477;
    assert YearStart(2024) == 19723;
    assert DaysBeforeMonth(2024, 2) == 31 && DaysBeforeMonth(2024, 3) == 60;
  }

  /** Reads a literal "yyyy-MM-dd" string. */
  lemma RecognizeDateLiteral(s: string, y: int, m: int, d: int)
    requires |s| == 10 && s[4] == '-' && s[7] == '-'
    requires forall k | k in {0, 1, 2, 3, 5, 6, 8, 9} :: IsDigit(s[k])
    requires y == ((DigitValue(s[0]) * 10 + DigitValue(s[1])) * 10 + DigitValue(s[2])) * 10 + DigitValue(s[3])
    requires m == DigitValue(s[5]) * 10 + DigitValue(s[6])
    requires d == DigitValue(s[8]) * 10 + DigitValue(s[9])
    ensures Recognize(DatePattern, s) == Some(Fields(y, m, d, 0, 0, 0))
  {
    assert DateShaped(s) by {
      assert AllDigits(s[0..4]) by { assert forall k | 0 <= k < 4 :: s[0..4][k] == s[k]; }
      assert AllDigits(s[5..7]) by { assert forall k | 0 <= k < 2 :: s[5..7][k] == s[5 + k]; }
      assert AllDigits(s[8..10]) by { assert forall k | 0 <= k < 2 :: s[8..10][k] == s[8 + k]; }
    }
    DigitsValue4(s[0..4]);
    DigitsValue2(s[5..7]);
    DigitsValue2(s[8..10]);
  }

  /** Reads a literal "yyyy-MM-dd HH:mm:ss" string. */
  lemma RecognizeTimestampLiteral(s: string, f: Fields)
    requires |s| == 19 && s[10] == ' ' && s[13] == ':' && s[16] == ':'
    requires Recognize(DatePattern, s[..10]) == Some(Fields(f.year, f.month, f.day, 0, 0, 0))
    requires forall k | k in {11, 12, 14, 15, 17, 18} :: IsDigit(s[k])
    requires f.hour == DigitValue(s[11]) * 10 + DigitValue(s[12])
    requires f.minute == DigitValue(s[14]) * 10 + DigitValue(s[15])
    requires f.second == DigitValue(s[17]) * 10 + DigitValue(s[18])
    ensures Recognize(TimestampPattern, s) == Some(f)
  {
    var t := s[11..];
    assert TimeShaped(t) by {
      assert AllDigits(t[0..2]) by { assert forall k | 0 <= k < 2 :: t[0..2][k] == s[11 + k]; }
      assert AllDigits(t[3..5]) by { assert forall k | 0 <= k < 2 :: t[3..5][k] == s[14 + k]; }
      assert AllDigits(t[6..8]) by { assert forall k | 0 <= k < 2 :: t[6..8][k] == s[17 + k]; }
    }
    DigitsValue2(t[0..2]);
    DigitsValue2(t[3..5]);
    DigitsValue2(t[6..8]);
  }

  lemma TenthOfJanuary2024(s: string, h1: char, h2: char, m1: char, m2: char)
    requires IsDigit(h1) && IsDigit(h2) && IsDigit(m1) && IsDigit(m2)
    requires DigitValue(h1) * 10 + DigitValue(h2) < 24 && DigitValue(m1) * 10 + DigitValue(m2) < 60
    requires s == "2024-01-10 " + [h1, h2] + ":" + [m1, m2] + ":00"
    ensures var h, m := DigitValue(h1) * 10 + DigitValue(h2), DigitValue(m1) * 10 + DigitValue(m2);
      && Recognize(TimestampPattern, s) == Some(Fields(2024, 1, 10, h, m, 0))
      && Parse(TimestampPattern, false, s) == Some(19732 * 86400000 + h * 3600000 + m * 60000)
  {
    var h, m := DigitValue(h1) * 10 + DigitValue(h2), DigitValue(m1) * 10 + DigitValue(m2);
    RecognizeDateLiteral(s[..10], 2024, 1, 10);
    RecognizeTimestampLiteral(s, Fields(2024, 1, 10, h, m, 0));
    assert LenientEpochDay(2024, 1, 10) == 19732;
    assert InRange(Fields(2024, 1, 10, h, m, 0));
  }

  /**
   * With now at 2024-01-10 09:00:00, a timecard from 09:00:00 to 10:00:00
   * that day is accepted and one ending at 09:30:00 is not (under an hour).
   */
  lemma OneHourMinimum(start: string, end: string, early: string, now: int)
    requires start == "2024-01-10 09:00:00" && end == "2024-01-10 10:00:00" && early == "2024-01-10 09:30:00"
    requires now == 19732 * 86400000 + 9 * 3600000
    ensures TimestampsAccepted(TimestampPattern, start, end, now)
    ensures !TimestampsAccepted(TimestampPattern, start, early, now)
  {
    TenthOfJanuary2024(start, '0', '9', '0', '0');
    TenthOfJanuary2024(end, '1', '0', '0', '0');
    TenthOfJanuary2024(early, '0', '9', '3', '0');
    assert now % 1000 == 0;
  }
}
