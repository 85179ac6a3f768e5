/**
 * Calendar dates as the merge script handles them: the `dd/dd/dddd` prefix test done
 * with `re.match`, the day-first reading of that text, the `%d/%m/%Y` rendering used as
 * the dedup key, and the English `calendar.month_abbr` table.
 */
module Dates {
  import opened Wrappers

  datatype Date = Date(day: int, month: int, year: int)

  /** Gregorian leap years. */
  predicate IsLeapYear(year: int)
  {
    (year % 4 == 0 && year % 100 != 0) || year % 400 == 0
  }

  function DaysInMonth(month: int, year: int): int
    requires 1 <= month <= 12
  {
    if month == 2 then (if IsLeapYear(year) then 29 else 28)
    else if month == 4 || month == 6 || month == 9 || month == 11 then 30
    else 31
  }

  predicate IsCalendarDate(d: Date)
  {
    1 <= d.month <= 12 && 1 <= d.day <= DaysInMonth(d.month, d.year)
  }

  /** `a` falls on or before `b`. */
  predicate NotAfter(a: Date, b: Date)
  {
    a.year < b.year
    || (a.year == b.year && (a.month < b.month || (a.month == b.month && a.day <= b.day)))
  }

  /**
   * The first and last calendar days whose midnight a pandas nanosecond Timestamp can
   * hold; a date outside them makes `pd.to_datetime` raise.
   */
  const FirstTimestampDay := Date(22, 9, 1677)
  const LastTimestampDay := Date(11, 4, 2262)

  predicate InTimestampRange(d: Date)
  {
    IsCalendarDate(d) && NotAfter(FirstTimestampDay, d) && NotAfter(d, LastTimestampDay)
  }

  /** A date `pd.to_datetime` can return. */
  type Timestamp = d: Date | InTimestampRange(d) witness Date(1, 1, 2000)

  predicate IsDigit(c: char)
  {
    '0' <= c <= '9'
  }

  /**
   * The date pattern test: two digits, a slash, two digits, a slash, four digits, matched
   * at the start only, so any text may follow the ten matched characters.
   */
  predicate StartsWithDatePattern(s: string)
  {
    && |s| >= 10
    && IsDigit(s[0]) && IsDigit(s[1]) && s[2] == '/'
    && IsDigit(s[3]) && IsDigit(s[4]) && s[5] == '/'
    && IsDigit(s[6]) && IsDigit(s[7]) && IsDigit(s[8]) && IsDigit(s[9])
  }

  /** Trailing text never makes a matching string fail the pattern. */
  lemma PatternIgnoresTrailingText(s: string, tail: string)
    requires StartsWithDatePattern(s)
    ensures StartsWithDatePattern(s + tail)
  {
    assert (s + tail)[..10] == s[..10];
  }

  function DigitValue(c: char): (n: int)
    requires IsDigit(c)
    ensures 0 <= n <= 9
  {
    c as int - '0' as int
  }

  function DigitChar(n: int): (c: char)
    requires 0 <= n <= 9
    ensures IsDigit(c) && DigitValue(c) == n
  {
    ('0' as int + n) as char
  }

  /** The day, month and year fields of a pattern-matching text, read day first. */
  function DayFirstFields(s: string): Date
    requires StartsWithDatePattern(s)
  {
    Date(10 * DigitValue(s[0]) + DigitValue(s[1]),
         10 * DigitValue(s[3]) + DigitValue(s[4]),
         1000 * DigitValue(s[6]) + 100 * DigitValue(s[7]) + 10 * DigitValue(s[8]) + DigitValue(s[9]))
  }

  /**
   * The day-first parse of a text that passed the pattern test. Exactly
   * ten characters that read day first as a calendar date give that date, or raise
   * (None) when it lies outside the Timestamp range. What the library does with other
   * texts (trailing text, or a day-first reading that is no calendar date, which it may
   * reread month first) is its own business and comes in as `lenient`.
   */
  function ParseDayFirst(s: string, lenient: string -> Option<Timestamp>): Option<Timestamp>
    requires StartsWithDatePattern(s)
  {
    var d := DayFirstFields(s);
    if |s| == 10 && IsCalendarDate(d) then
      (if InTimestampRange(d) then Some(d) else None)
    else
      lenient(s)
  }

  /** strftime("%d") / strftime("%m"): two digits, zero padded. */
  function Pad2(n: int): (r: string)
    requires 0 <= n <= 99
    ensures |r| == 2 && IsDigit(r[0]) && IsDigit(r[1])
    ensures 10 * DigitValue(r[0]) + DigitValue(r[1]) == n
  {
    [DigitChar(n / 10), DigitChar(n % 10)]
  }

  /** strftime("%Y") of a four-digit year. */
  function Pad4(n: int): (r: string)
    requires 1000 <= n <= 9999
    ensures |r| == 4 && IsDigit(r[0]) && IsDigit(r[1]) && IsDigit(r[2]) && IsDigit(r[3])
    ensures 1000 * DigitValue(r[0]) + 100 * DigitValue(r[1]) + 10 * DigitValue(r[2]) + DigitValue(r[3]) == n
  {
    Pad2(n / 100) + Pad2(n % 100)
  }

  /**
   * The canonical zero-padded `DD/MM/YYYY` key of a date: ten characters that pass
   * the pattern test and read back, day first, as the same date.
   */
  function Canonical(d: Timestamp): (key: string)
    ensures |key| == 10 && StartsWithDatePattern(key)
    ensures DayFirstFields(key) == d
  {
    Pad2(d.day) + "/" + Pad2(d.month) + "/" + Pad4(d.year)
  }

  /** Parsing a key gives back the date it was rendered from. */
  lemma ParseCanonical(d: Timestamp, lenient: string -> Option<Timestamp>)
    ensures ParseDayFirst(Canonical(d), lenient) == Some(d)
  {
  }

  lemma {:induction false} PadOfDigits(a: char, b: char)
    requires IsDigit(a) && IsDigit(b)
    ensures Pad2(10 * DigitValue(a) + DigitValue(b)) == [a, b]
  {
    var n := 10 * DigitValue(a) + DigitValue(b);
    assert n / 10 == DigitValue(a) && n % 10 == DigitValue(b);
    assert DigitChar(DigitValue(a)) == a && DigitChar(DigitValue(b)) == b;
  }

  lemma {:induction false} Pad4OfDigits(a: char, b: char, c: char, e: char)
    requires IsDigit(a) && IsDigit(b) && IsDigit(c) && IsDigit(e) && a != '0'
    ensures Pad4(1000 * DigitValue(a) + 100 * DigitValue(b) + 10 * DigitValue(c) + DigitValue(e)) == [a, b, c, e]
  {
    var hi := 10 * DigitValue(a) + DigitValue(b);
    var lo := 10 * DigitValue(c) + DigitValue(e);
    var n := 100 * hi + lo;
    assert n / 100 == hi && n % 100 == lo;
    PadOfDigits(a, b);
    PadOfDigits(c, e);
  }

  /**
   * A ten-character text that already reads day first as a date is its own key: the
   * dedup key of an input that is already canonical is the input itself.
   */
  lemma {:induction false} CanonicalOfExactText(s: string, lenient: string -> Option<Timestamp>)
    requires StartsWithDatePattern(s) && |s| == 10 && IsCalendarDate(DayFirstFields(s))
    requires ParseDayFirst(s, lenient).Some?
    ensures Canonical(ParseDayFirst(s, lenient).value) == s
  {
    var d := DayFirstFields(s);
    PadOfDigits(s[0], s[1]);
    PadOfDigits(s[3], s[4]);
    Pad4OfDigits(s[6], s[7], s[8], s[9]);
    assert s == [s[0], s[1]] + "/" + [s[3], s[4]] + "/" + [s[6], s[7], s[8], s[9]];
  }

  /** The English three-letter month abbreviations, January first. */
  const MonthAbbreviations: seq<string> :=
    ["Jan", "Feb", "Mar", "Apr", "May", "Jun", "Jul", "Aug", "Sep", "Oct", "Nov", "Dec"]

  function MonthAbbr(month: int): (abbr: string)
    requires 1 <= month <= 12
    ensures |abbr| == 3
  {
    MonthAbbreviations[month - 1]
  }

  /** The month number `%b` parsing gives an abbreviation, if it is one. */
  function MonthNumber(abbr: string): (m: Option<int>)
    ensures m.Some? ==> 1 <= m.value <= 12
  {
    if abbr == "Jan" then Some(1) else if abbr == "Feb" then Some(2)
    else if abbr == "Mar" then Some(3) else if abbr == "Apr" then Some(4)
    else if abbr == "May" then Some(5) else if abbr == "Jun" then Some(6)
    else if abbr == "Jul" then Some(7) else if abbr == "Aug" then Some(8)
    else if abbr == "Sep" then Some(9) else if abbr == "Oct" then Some(10)
    else if abbr == "Nov" then Some(11) else if abbr == "Dec" then Some(12)
    else None
  }

  predicate IsMonthAbbr(s: string)
  {
    MonthNumber(s).Some?
  }

  /** MonthNumber and MonthAbbr are inverse to each other on the twelve months. */
  lemma MonthAbbrRoundTrip(month: int, abbr: string)
    requires 1 <= month <= 12
    ensures MonthNumber(MonthAbbr(month)) == Some(month)
    ensures MonthNumber(abbr) == Some(month) ==> MonthAbbr(month) == abbr
  {
  }
}
