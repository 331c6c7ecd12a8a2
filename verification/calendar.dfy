/**
 The part of `java.time` the weather code touches: the `Month` enum, a validated
 `LocalDateTime`, and the fixed timestamp pattern `yyyy/MM/dd HH:mm:ss` used to read
 station exports.
 */
module Calendar {
  import opened Options
  import opened Numerals

  /** `java.time.Month`, declared in calendar order. */
  datatype Month =
    | JANUARY | FEBRUARY | MARCH | APRIL | MAY | JUNE
    | JULY | AUGUST | SEPTEMBER | OCTOBER | NOVEMBER | DECEMBER

  /** `Month.ordinal()`: the declaration position, 0 for January through 11 for December. */
  function Ordinal(m: Month): (k: int)
    ensures 0 <= k < 12
  {
    match m
    case JANUARY => 0   case FEBRUARY => 1  case MARCH => 2
    case APRIL => 3     case MAY => 4       case JUNE => 5
    case JULY => 6      case AUGUST => 7    case SEPTEMBER => 8
    case OCTOBER => 9   case NOVEMBER => 10 case DECEMBER => 11
  }

  /** `Month.of(n)` for a month number 1..12. */
  function MonthOf(n: int): (m: Month)
    requires 1 <= n <= 12
    ensures Ordinal(m) == n - 1
  {
    if n == 1 then JANUARY else if n == 2 then FEBRUARY else if n == 3 then MARCH
    else if n == 4 then APRIL else if n == 5 then MAY else if n == 6 then JUNE
    else if n == 7 then JULY else if n == 8 then AUGUST else if n == 9 then SEPTEMBER
    else if n == 10 then OCTOBER else if n == 11 then NOVEMBER else DECEMBER
  }

  /** Month numbers and months correspond one to one. */
  lemma MonthOfOrdinal(m: Month)
    ensures MonthOf(Ordinal(m) + 1) == m
  {
  }

  /** The proleptic Gregorian leap-year rule of `IsoChronology.isLeapYear`. */
  predicate IsLeapYear(year: int) {
    year % 4 == 0 && (year % 100 != 0 || year % 400 == 0)
  }

  /** The length of a month in days. */
  function DaysInMonth(year: int, month: int): (n: int)
    requires 1 <= month <= 12
    ensures 28 <= n <= 31
  {
    if month == 2 then (if IsLeapYear(year) then 29 else 28)
    else if month == 4 || month == 6 || month == 9 || month == 11 then 30
    else 31
  }

  /** A date and a time of day, field by field, as `LocalDateTime` holds them (to the second). */
  datatype DateTime = DateTime(year: int, month: int, day: int, hour: int, minute: int, second: int)

  /** The ranges `LocalDateTime` enforces on every field. */
  predicate ValidDateTime(t: DateTime) {
    && 1 <= t.month <= 12
    && 1 <= t.day <= DaysInMonth(t.year, t.month)
    && 0 <= t.hour < 24
    && 0 <= t.minute < 60
    && 0 <= t.second < 60
  }

  /** A `LocalDateTime`: only valid field combinations exist. */
  type Timestamp = t: DateTime | ValidDateTime(t) witness DateTime(2000, 1, 1, 0, 0, 0)

  /** `LocalDateTime.getMonth()`. */
  function MonthOfTimestamp(t: Timestamp): Month
  {
    MonthOf(t.month)
  }

  /** Whether `s` has the shape `dddd/dd/dd dd:dd:dd`. */
  predicate MatchesPattern(s: string) {
    && |s| == 19
    && s[4] == '/' && s[7] == '/' && s[10] == ' ' && s[13] == ':' && s[16] == ':'
    && AllDigits(s[0..4]) && AllDigits(s[5..7]) && AllDigits(s[8..10])
    && AllDigits(s[11..13]) && AllDigits(s[14..16]) && AllDigits(s[17..19])
  }

  /**
   `LocalDateTime.parse(s, ofPattern("yyyy/MM/dd HH:mm:ss"))`: the text must have the
   pattern's shape and its fields must name an existing date and time. The four-digit
   year is a year of the Common Era, so year 0000 is refused.
   */
  function ParseTimestamp(s: string): (r: Option<Timestamp>)
    ensures r.Some? ==> 1 <= r.value.year <= 9999
  {
    if !MatchesPattern(s) then None
    else
      var t := DateTime(DigitsValue(s[0..4]), DigitsValue(s[5..7]), DigitsValue(s[8..10]),
                        DigitsValue(s[11..13]), DigitsValue(s[14..16]), DigitsValue(s[17..19]));
      DigitsPadded(s[0..4]);
      if 1 <= t.year && ValidDateTime(t) then Some(t) else None
  }

  /** The pattern's rendering of a timestamp whose year has at most four digits. */
  function FormatTimestamp(t: Timestamp): (s: string)
    requires 1 <= t.year <= 9999
    ensures |s| == 19
  {
    PadDigits(t.year, 4) + "/" + PadDigits(t.month, 2) + "/" + PadDigits(t.day, 2) + " "
    + PadDigits(t.hour, 2) + ":" + PadDigits(t.minute, 2) + ":" + PadDigits(t.second, 2)
  }

  /** The slices of a rendering are the padded fields. */
  lemma FormatTimestampFields(t: Timestamp)
    requires 1 <= t.year <= 9999
    ensures var s := FormatTimestamp(t);
      && s[4] == '/' && s[7] == '/' && s[10] == ' ' && s[13] == ':' && s[16] == ':'
      && s[0..4] == PadDigits(t.year, 4) && s[5..7] == PadDigits(t.month, 2)
      && s[8..10] == PadDigits(t.day, 2) && s[11..13] == PadDigits(t.hour, 2)
      && s[14..16] == PadDigits(t.minute, 2) && s[17..19] == PadDigits(t.second, 2)
  {
  }

  /** Every timestamp in the four-digit range is read back from its rendering. */
  lemma ParseFormatTimestamp(t: Timestamp)
    requires 1 <= t.year <= 9999
    ensures ParseTimestamp(FormatTimestamp(t)) == Some(t)
  {
    FormatTimestampFields(t);
    PadDigitsValue(t.year, 4);
    PadDigitsValue(t.month, 2);
    PadDigitsValue(t.day, 2);
    PadDigitsValue(t.hour, 2);
    PadDigitsValue(t.minute, 2);
    PadDigitsValue(t.second, 2);
  }

  /** Every accepted text is the rendering of what it parses to: the pattern admits one spelling per timestamp. */
  lemma FormatParseTimestamp(s: string)
    requires ParseTimestamp(s).Some?
    ensures FormatTimestamp(ParseTimestamp(s).value) == s
  {
    var t := ParseTimestamp(s).value;
    DigitsPadded(s[0..4]);
    DigitsPadded(s[5..7]);
    DigitsPadded(s[8..10]);
    DigitsPadded(s[11..13]);
    DigitsPadded(s[14..16]);
    DigitsPadded(s[17..19]);
    FormatTimestampFields(t);
    var f := FormatTimestamp(t);
    assert forall i :: 0 <= i < 19 ==> f[i] == s[i] by {
      forall i | 0 <= i < 19
        ensures f[i] == s[i]
      {
        if i < 4 { assert f[i] == f[0..4][i]; assert s[i] == s[0..4][i]; }
        else if 4 < i < 7 { assert f[i] == f[5..7][i - 5]; assert s[i] == s[5..7][i - 5]; }
        else if 7 < i < 10 { assert f[i] == f[8..10][i - 8]; assert s[i] == s[8..10][i - 8]; }
        else if 10 < i < 13 { assert f[i] == f[11..13][i - 11]; assert s[i] == s[11..13][i - 11]; }
        else if 13 < i < 16 { assert f[i] == f[14..16][i - 14]; assert s[i] == s[14..16][i - 14]; }
        else if 16 < i { assert f[i] == f[17..19][i - 17]; assert s[i] == s[17..19][i - 17]; }
      }
    }
  }
}
