/**
 * The two fixed date patterns of the service, "yyyy-MM-dd" for hire dates
 * and "yyyy-MM-dd HH:mm:ss" for timecard timestamps, as a fixed-width
 * recognizer, a parser in lenient and in non-lenient mode, and a formatter.
 */
module DateFormat {
  import opened Wrappers
  import opened Calendar

  datatype Pattern = DatePattern | TimestampPattern

  /** The numbers read from the digit groups of a date or timestamp. */
  datatype Fields = Fields(year: int, month: int, day: int, hour: int, minute: int, second: int)

  predicate IsDigit(c: char) {
    '0' <= c <= '9'
  }

  predicate AllDigits(s: string) {
    forall k :: 0 <= k < |s| ==> IsDigit(s[k])
  }

  predicate DigitsAt(s: string, i: nat, w: nat) {
    i + w <= |s| && AllDigits(s[i..i + w])
  }

  function DigitValue(c: char): int {
    c as int - '0' as int
  }

  /** The decimal value of a string of digits, most significant first. */
  function DigitsValue(s: string): int {
    if s == [] then 0 else DigitsValue(s[..|s| - 1]) * 10 + DigitValue(s[|s| - 1])
  }

  lemma DigitsValue2(s: string)
    requires |s| == 2
    ensures DigitsValue(s) == DigitValue(s[0]) * 10 + DigitValue(s[1])
  {
    var first := s[..1];
    assert first[..0] == [];
    assert DigitsValue(first) == DigitValue(s[0]);
    assert s[..|s| - 1] == first;
  }

  lemma DigitsValue4(s: string)
    requires |s| == 4
    ensures DigitsValue(s) == ((DigitValue(s[0]) * 10 + DigitValue(s[1])) * 10 + DigitValue(s[2])) * 10 + DigitValue(s[3])
  {
    DigitsValue2(s[..2]);
    assert s[..3][..2] == s[..2];
  }

  function NumberAt(s: string, i: nat, w: nat): int
    requires i + w <= |s|
  {
    DigitsValue(s[i..i + w])
  }

  /** "yyyy-MM-dd": digit groups and separators at fixed places. */
  predicate DateShaped(s: string) {
    |s| == 10 && DigitsAt(s, 0, 4) && s[4] == '-' && DigitsAt(s, 5, 2) && s[7] == '-' && DigitsAt(s, 8, 2)
  }

  /** "HH:mm:ss": digit groups and separators at fixed places. */
  predicate TimeShaped(s: string) {
    |s| == 8 && DigitsAt(s, 0, 2) && s[2] == ':' && DigitsAt(s, 3, 2) && s[5] == ':' && DigitsAt(s, 6, 2)
  }

  /** The string has the exact shape of pattern p. */
  predicate Shaped(p: Pattern, s: string) {
    match p
    case DatePattern => DateShaped(s)
    case TimestampPattern => |s| == 19 && DateShaped(s[..10]) && s[10] == ' ' && TimeShaped(s[11..])
  }

  /** Reads the digit groups of a string of pattern p; a date has time fields 0. */
  function Recognize(p: Pattern, s: string): (r: Option<Fields>)
    ensures r.Some? <==> Shaped(p, s)
    ensures r.Some? && p == DatePattern ==> r.value.hour == r.value.minute == r.value.second == 0
  {
    if !Shaped(p, s) then None
    else if p == DatePattern then
      Some(Fields(NumberAt(s, 0, 4), NumberAt(s, 5, 2), NumberAt(s, 8, 2), 0, 0, 0))
    else
      var d, t := s[..10], s[11..];
      Some(Fields(NumberAt(d, 0, 4), NumberAt(d, 5, 2), NumberAt(d, 8, 2),
                  NumberAt(t, 0, 2), NumberAt(t, 3, 2), NumberAt(t, 6, 2)))
  }

  /** The fields a non-lenient GregorianCalendar accepts. */
  predicate InRange(f: Fields) {
    && f.year >= 1
    && ValidDate(Date(f.year, f.month, f.day))
    && 0 <= f.hour < 24 && 0 <= f.minute < 60 && 0 <= f.second < 60
  }

  /** The local epoch millisecond of the fields; out-of-range fields roll over, as in lenient mode. */
  function Instant(f: Fields): int {
    LenientEpochDay(f.year, f.month, f.day) * 86400000
      + f.hour * 3600000 + f.minute * 60000 + f.second * 1000
  }

  /**
   * DateFormat.parse: None stands for a ParseException. In non-lenient mode
   * (after setLenient(false)) out-of-range fields are an error; in lenient
   * mode they roll over.
   */
  function Parse(p: Pattern, lenient: bool, s: string): (r: Option<int>)
    ensures r.Some? <==> Shaped(p, s) && (lenient || InRange(Recognize(p, s).value))
    ensures r.Some? ==> r.value == Instant(Recognize(p, s).value)
  {
    match Recognize(p, s)
    case None => None
    case Some(f) => if lenient || InRange(f) then Some(Instant(f)) else None
  }

  /** The calendar fields of an instant, to the second. */
  function FieldsOf(ms: int): Fields {
    var d := CivilOf(ms / 86400000);
    var t := ms % 86400000;
    Fields(d.year, d.month, d.day, t / 3600000, t % 3600000 / 60000, t % 60000 / 1000)
  }

  /** Reading the calendar fields of an instant parsed from in-range fields gives those fields back. */
  lemma FieldsOfInstant(f: Fields)
    requires InRange(f)
    ensures FieldsOf(Instant(f)) == f
  {
    var d := Date(f.year, f.month, f.day);
    var e := EpochDay(d);
    var t := f.hour * 3600000 + f.minute * 60000 + f.second * 1000;
    var ms := Instant(f);
    InstantSplit(f);
    TimeOfDaySplit(f.hour, f.minute, f.second);
    DaySplit(e, t);
    assert ms / 86400000 == e && ms % 86400000 == t;
    CivilOfEpochDay(d);
  }

  /** The instant of in-range fields is their epoch day's first millisecond plus the time of day. */
  lemma InstantSplit(f: Fields)
    requires InRange(f)
    ensures Instant(f) == EpochDay(Date(f.year, f.month, f.day)) * 86400000
                          + (f.hour * 3600000 + f.minute * 60000 + f.second * 1000)
  {
  }

  /** An instant splits into its epoch day and its time of day. */
  lemma DaySplit(e: int, t: int)
    requires 0 <= t < 86400000
    ensures (e * 86400000 + t) / 86400000 == e
    ensures (e * 86400000 + t) % 86400000 == t
  {
  }

  /** A time of day splits into hour, minute and second. */
  lemma TimeOfDaySplit(h: int, m: int, s: int)
    requires 0 <= h < 24 && 0 <= m < 60 && 0 <= s < 60
    ensures var t := h * 3600000 + m * 60000 + s * 1000;
      && 0 <= t < 86400000
      && t / 3600000 == h
      && t % 3600000 / 60000 == m
      && t % 60000 / 1000 == s
  {
    var t := h * 3600000 + m * 60000 + s * 1000;
    assert t % 3600000 == m * 60000 + s * 1000;
    assert t % 60000 == s * 1000;
  }

  function Pow10(w: nat): (r: nat)
    ensures r >= 1
  {
    if w == 0 then 1 else 10 * Pow10(w - 1)
  }

  function DigitChar(n: int): char
    requires 0 <= n < 10
  {
    ('0' as int + n) as char
  }

  /** The w lowest decimal digits of n, zero-padded on the left. */
  function Pad(n: nat, w: nat): string {
    if w == 0 then "" else Pad(n / 10, w - 1) + [DigitChar(n % 10)]
  }

  lemma {:induction false} PadDigits(n: nat, w: nat)
    requires n < Pow10(w)
    ensures |Pad(n, w)| == w
    ensures AllDigits(Pad(n, w))
    ensures DigitsValue(Pad(n, w)) == n
  {
    if w > 0 {
      PadDigits(n / 10, w - 1);
      var s := Pad(n, w);
      assert s[..|s| - 1] == Pad(n / 10, w - 1);
    }
  }

  /** The "yyyy-MM-dd" part of a formatted instant. */
  function DateText(f: Fields): string
    requires f.year >= 0 && f.month >= 0 && f.day >= 0
  {
    Pad(f.year, 4) + "-" + Pad(f.month, 2) + "-" + Pad(f.day, 2)
  }

  /** The "HH:mm:ss" part of a formatted instant. */
  function TimeText(f: Fields): string
    requires f.hour >= 0 && f.minute >= 0 && f.second >= 0
  {
    Pad(f.hour, 2) + ":" + Pad(f.minute, 2) + ":" + Pad(f.second, 2)
  }

  /** SimpleDateFormat.format of fields in pattern p. */
  function Format(p: Pattern, f: Fields): string
    requires f.year >= 0 && f.month >= 0 && f.day >= 0
    requires f.hour >= 0 && f.minute >= 0 && f.second >= 0
  {
    if p == DatePattern then DateText(f) else DateText(f) + " " + TimeText(f)
  }

  /** Fields small enough to print in their pattern's fixed widths. */
  predicate Printable(p: Pattern, f: Fields) {
    && 0 <= f.year < 10000 && 0 <= f.month < 100 && 0 <= f.day < 100
    && 0 <= f.hour < 100 && 0 <= f.minute < 100 && 0 <= f.second < 100
    && (p == DatePattern ==> f.hour == f.minute == f.second == 0)
  }

  lemma DateTextShape(f: Fields)
    requires Printable(DatePattern, f.(hour := 0, minute := 0, second := 0))
    ensures var s := DateText(f);
      && |s| == 10 && s[4] == '-' && s[7] == '-'
      && s[0..4] == Pad(f.year, 4) && s[5..7] == Pad(f.month, 2) && s[8..10] == Pad(f.day, 2)
      && DateShaped(s)
      && NumberAt(s, 0, 4) == f.year && NumberAt(s, 5, 2) == f.month && NumberAt(s, 8, 2) == f.day
  {
    PadDigits(f.year, 4);
    PadDigits(f.month, 2);
    PadDigits(f.day, 2);
  }

  lemma TimeTextShape(f: Fields)
    requires 0 <= f.hour < 100 && 0 <= f.minute < 100 && 0 <= f.second < 100
    ensures var s := TimeText(f);
      && |s| == 8 && s[2] == ':' && s[5] == ':'
      && s[0..2] == Pad(f.hour, 2) && s[3..5] == Pad(f.minute, 2) && s[6..8] == Pad(f.second, 2)
      && TimeShaped(s)
      && NumberAt(s, 0, 2) == f.hour && NumberAt(s, 3, 2) == f.minute && NumberAt(s, 6, 2) == f.second
  {
    PadDigits(f.hour, 2);
    PadDigits(f.minute, 2);
    PadDigits(f.second, 2);
  }

  /** Recognizing a formatted string gives back the fields it was printed from. */
  lemma RecognizeFormat(p: Pattern, f: Fields)
    requires Printable(p, f)
    ensures Recognize(p, Format(p, f)) == Some(f)
  {
    if p == DatePattern {
      RecognizeFormatDate(f);
    } else {
      RecognizeFormatTimestamp(f);
    }
  }

  lemma RecognizeFormatDate(f: Fields)
    requires Printable(DatePattern, f)
    ensures Recognize(DatePattern, Format(DatePattern, f)) == Some(f)
  {
    DateTextShape(f);
  }

  lemma RecognizeFormatTimestamp(f: Fields)
    requires Printable(TimestampPattern, f)
    ensures Recognize(TimestampPattern, Format(TimestampPattern, f)) == Some(f)
  {
    DateTextShape(f);
    TimeTextShape(f);
    var d, t := DateText(f), TimeText(f);
    var s := Format(TimestampPattern, f);
    assert s[..10] == d && s[10] == ' ' && s[11..] == t;
  }

  /** The unit an instant printed in pattern p is truncated to. */
  function Unit(p: Pattern): int {
    if p == DatePattern then MsPerDay else MsPerSecond
  }

  /** The instant truncated to the unit of pattern p. */
  function Truncate(p: Pattern, ms: int): int {
    ms - ms % Unit(p)
  }

  /** The fields SimpleDateFormat.format prints for an instant in pattern p. */
  function Shown(p: Pattern, ms: int): Fields {
    var f := FieldsOf(ms);
    if p == DatePattern then f.(hour := 0, minute := 0, second := 0) else f
  }

  /** An instant with a four-digit year. */
  predicate FourDigitYear(ms: int) {
    1 <= CivilOf(ms / MsPerDay).year <= 9999
  }

  /** SimpleDateFormat.format of an instant in pattern p. */
  function FormatInstant(p: Pattern, ms: int): string
    requires FourDigitYear(ms)
  {
    var f := Shown(p, ms);
    assert 0 <= ms % MsPerDay < 86400000;
    Format(p, f)
  }

  lemma TimeOfDayJoin(t: int)
    requires 0 <= t < 86400000
    ensures t / 3600000 < 24 && t % 3600000 / 60000 < 60 && t % 60000 / 1000 < 60
    ensures t / 3600000 * 3600000 + t % 3600000 / 60000 * 60000 + t % 60000 / 1000 * 1000 == t - t % 1000
  {
    assert t % 3600000 % 60000 == t % 60000;
    assert t % 60000 % 1000 == t % 1000;
  }

  lemma ShownInRange(p: Pattern, now: int)
    requires FourDigitYear(now)
    ensures InRange(Shown(p, now)) && Printable(p, Shown(p, now))
  {
    TimeOfDayJoin(now % 86400000);
  }

  lemma SecondOfDay(now: int)
    ensures now % 1000 == now % 86400000 % 1000
    ensures now == now / 86400000 * 86400000 + now % 86400000
  {
    var q, t := now / 86400000, now % 86400000;
    var m := 86400 * q + t / 1000;
    assert now == 1000 * m + t % 1000;
    assert now / 1000 == m by {
      assert 0 <= t % 1000 < 1000;
    }
  }

  /** The instant of the fields printed for now is now truncated to the pattern's unit. */
  lemma InstantOfShown(p: Pattern, now: int)
    ensures Instant(Shown(p, now)) == Truncate(p, now)
  {
    var day, t := now / 86400000, now % 86400000;
    var f := Shown(p, now);
    assert LenientEpochDay(f.year, f.month, f.day) == day;
    SecondOfDay(now);
    if p == TimestampPattern {
      TimeOfDayJoin(t);
      assert f.hour * MsPerHour + f.minute * MsPerMinute + f.second * MsPerSecond == t - t % 1000;
    }
  }

  /**
   * Formatting an instant and parsing the text back, in either mode, gives
   * the instant truncated to the pattern's unit: to the second for
   * timestamps, to midnight for dates.
   */
  lemma FormatThenParse(p: Pattern, lenient: bool, now: int)
    requires FourDigitYear(now)
    ensures Parse(p, lenient, FormatInstant(p, now)) == Some(Truncate(p, now))
  {
    ShownInRange(p, now);
    RecognizeFormat(p, Shown(p, now));
    InstantOfShown(p, now);
  }
}
