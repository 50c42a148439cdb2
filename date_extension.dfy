/**
 * `DateExtension::formatDate` of mani-extensions.php, from the point where
 * PHP's DateTime has parsed the input: the `'jS F, Y'` format, e.g.
 * "1st January, 1970".  A null input gives null.
 */
module DateExtension {
  import opened Wrappers
  import opened PhpStrings

  /** A calendar date as DateTime holds it (proleptic Gregorian). */
  datatype Date = Date(year: int, month: int, day: int)

  predicate IsLeapYear(y: int) {
    y % 4 == 0 && (y % 100 != 0 || y % 400 == 0)
  }

  function DaysInMonth(y: int, m: int): int
    requires 1 <= m <= 12
  {
    if m == 2 then (if IsLeapYear(y) then 29 else 28)
    else if m == 4 || m == 6 || m == 9 || m == 11 then 30
    else 31
  }

  /** The dates DateTime can hold. */
  predicate ValidDate(d: Date) {
    1 <= d.month <= 12 && 1 <= d.day <= DaysInMonth(d.year, d.month)
  }

  /** Format character 'F': the full English month name. */
  function MonthName(m: int): string
    requires 1 <= m <= 12
  {
    match m
    case 1 => "January"   case 2 => "February"  case 3 => "March"
    case 4 => "April"     case 5 => "May"       case 6 => "June"
    case 7 => "July"      case 8 => "August"    case 9 => "September"
    case 10 => "October"  case 11 => "November" case _ => "December"
  }

  /** Format character 'S': PHP's English ordinal suffix of a day of the month. */
  function OrdinalSuffix(day: int): string {
    if 10 <= day <= 19 then "th"
    else if day % 10 == 1 then "st"
    else if day % 10 == 2 then "nd"
    else if day % 10 == 3 then "rd"
    else "th"
  }

  /** Format character 'Y': the year with at least four digits, '-' before years BCE. */
  function YearText(y: int): string {
    var digits := Decimal(if y < 0 then -y else y);
    (if y < 0 then "-" else "") + ZeroPad(digits, 4)
  }

  /** `digits` preceded by as many '0' as make it `width` long. */
  function ZeroPad(digits: string, width: nat): (r: string)
    ensures |r| >= width && |r| >= |digits|
    decreases width - |digits|
  {
    if |digits| >= width then digits else ZeroPad(['0'] + digits, width)
  }

  /** `$date->format('jS F, Y')`. */
  function Format(d: Date): string
    requires ValidDate(d)
  {
    Decimal(d.day) + OrdinalSuffix(d.day) + " " + MonthName(d.month) + ", " + YearText(d.year)
  }

  /** `formatDate($dateString)`: null stays null, a date is formatted. */
  function FormatDate(date: Option<Date>): (r: Option<string>)
    requires date.Some? ==> ValidDate(date.value)
    ensures r.None? <==> date.None?
  {
    match date
    case None => None
    case Some(d) => Some(Format(d))
  }

  /** The example of the doc comment. */
  lemma FormatDateExample()
    ensures FormatDate(Some(Date(1970, 1, 1))) == Some("1st January, 1970")
  {
    assert Decimal(1) == "1";
    Year1970Text();
    assert Format(Date(1970, 1, 1)) == "1" + "st" + " " + "January" + ", " + "1970";
    assert "1" + "st" + " " + "January" + ", " + "1970" == "1st January, 1970";
  }

  lemma Year1970Text()
    ensures YearText(1970) == "1970"
  {
    assert Decimal(197) == "197" by {
      assert Decimal(1) == "1";
      assert Decimal(19) == "1" + "9";
    }
    assert Decimal(1970) == "197" + "0";
    assert ZeroPad("1970", 4) == "1970";
  }

  /** PHP's 'S' rule spelled out for every day of a month. */
  lemma OrdinalSuffixTable(day: int)
    requires 1 <= day <= 31
    ensures OrdinalSuffix(day) == "st" <==> day in {1, 21, 31}
    ensures OrdinalSuffix(day) == "nd" <==> day in {2, 22}
    ensures OrdinalSuffix(day) == "rd" <==> day in {3, 23}
    ensures OrdinalSuffix(day) == "th" <==> (4 <= day <= 20 || 24 <= day <= 30)
  {
  }

  // ---------------------------------------------------------------------------
  // Reading a formatted date back: the format loses nothing.
  // ---------------------------------------------------------------------------

  /** The month whose full name is `name`, if any. */
  function MonthNumber(name: string): Option<int> {
    if name == "January" then Some(1) else if name == "February" then Some(2)
    else if name == "March" then Some(3) else if name == "April" then Some(4)
    else if name == "May" then Some(5) else if name == "June" then Some(6)
    else if name == "July" then Some(7) else if name == "August" then Some(8)
    else if name == "September" then Some(9) else if name == "October" then Some(10)
    else if name == "November" then Some(11) else if name == "December" then Some(12)
    else None
  }

  /** The position of the first `c` in `s`, if any. */
  function IndexOf(c: char, s: string): (r: Option<nat>)
    ensures r.Some? ==> r.value < |s| && s[r.value] == c && c !in s[..r.value]
    ensures r.None? ==> c !in s
  {
    if |s| == 0 then None
    else if s[0] == c then Some(0)
    else match IndexOf(c, s[1..])
      case None => None
      case Some(k) =>
        assert s[..k + 1] == [s[0]] + s[1..][..k];
        Some(k + 1)
  }

  /** Text made by 'Y': an optional '-' and at least one digit. */
  function ParseYear(s: string): Option<int> {
    if |s| > 0 && s[0] == '-' then
      if |s| > 1 && AllDigits(s[1..]) then Some(0 - DigitsValue(s[1..])) else None
    else if |s| > 0 && AllDigits(s) then Some(DigitsValue(s))
    else None
  }

  /** Reads text of the form month name, ', ', year into (month, year). */
  function ParseMonthYear(rest: string): Option<(int, int)> {
    match IndexOf(',', rest)
    case None => None
    case Some(k) =>
      if k + 2 > |rest| || rest[k + 1] != ' ' then None
      else match (MonthNumber(rest[..k]), ParseYear(rest[k + 2..]))
        case (Some(m), Some(y)) => Some((m, y))
        case _ => None
  }

  /** Reads text of the form day, two-letter suffix, ' ', month name, ', ', year. */
  function ParseFormatted(s: string): Option<Date> {
    var n := DigitPrefixLength(s);
    if n == 0 || n + 3 > |s| || s[n + 2] != ' ' then None
    else WithDay(ParseMonthYear(s[n + 3..]), DigitsValue(s[..n]))
  }

  function WithDay(monthYear: Option<(int, int)>, day: int): Option<Date> {
    match monthYear
    case None => None
    case Some((m, y)) => Some(Date(y, m, day))
  }

  lemma MonthNumberOfName(m: int)
    requires 1 <= m <= 12
    ensures MonthNumber(MonthName(m)) == Some(m)
    ensures ',' !in MonthName(m)
  {
  }

  lemma {:induction false} ZeroPadValue(digits: string, width: nat)
    requires |digits| >= 1 && AllDigits(digits)
    ensures AllDigits(ZeroPad(digits, width))
    ensures DigitsValue(ZeroPad(digits, width)) == DigitsValue(digits)
    decreases width - |digits|
  {
    if |digits| < width {
      DigitsValueLeadingZero(digits);
      ZeroPadValue(['0'] + digits, width);
    }
  }

  lemma YearTextParses(y: int)
    ensures ParseYear(YearText(y)) == Some(y)
  {
    var digits := Decimal(if y < 0 then -y else y);
    ZeroPadValue(digits, 4);
    var padded := ZeroPad(digits, 4);
    if y < 0 {
      assert YearText(y) == "-" + padded;
      assert YearText(y)[1..] == padded;
    } else {
      assert YearText(y) == padded;
    }
  }

  lemma MonthYearRoundTrip(m: int, y: int)
    requires 1 <= m <= 12
    ensures ParseMonthYear(MonthName(m) + ", " + YearText(y)) == Some((m, y))
  {
    var month := MonthName(m);
    var rest := month + ", " + YearText(y);
    MonthNumberOfName(m);
    assert rest[..|month|] == month && rest[|month|] == ',';
    assert IndexOf(',', rest) == Some(|month|);
    assert rest[|month| + 2..] == YearText(y);
    YearTextParses(y);
  }

  /** The digits of a number end where a non-digit follows them. */
  lemma DigitPrefixOf(digits: string, tail: string)
    requires AllDigits(digits)
    requires |tail| > 0 && !IsDigit(tail[0])
    ensures DigitPrefixLength(digits + tail) == |digits|
    ensures (digits + tail)[..|digits|] == digits
  {
  }

  /** Every formatted date reads back as the date it came from. */
  lemma {:induction false} ParseFormatRoundTrip(d: Date)
    requires ValidDate(d)
    ensures ParseFormatted(Format(d)) == Some(d)
  {
    var rest := MonthName(d.month) + ", " + YearText(d.year);
    assert Format(d) == Decimal(d.day) + OrdinalSuffix(d.day) + " " + rest;
    ParseDaySuffix(Decimal(d.day), OrdinalSuffix(d.day), rest);
    MonthYearRoundTrip(d.month, d.year);
  }

  /** The day's digits and a two-letter suffix are read off the front. */
  lemma ParseDaySuffix(day: string, suffix: string, rest: string)
    requires |day| >= 1 && AllDigits(day)
    requires |suffix| == 2 && !IsDigit(suffix[0])
    ensures ParseFormatted(day + suffix + " " + rest) == WithDay(ParseMonthYear(rest), DigitsValue(day))
  {
    DaySuffixLayout(day, suffix, rest);
    ParseAfterDigits(day + suffix + " " + rest, day, rest);
  }

  lemma DaySuffixLayout(day: string, suffix: string, rest: string)
    requires |day| >= 1 && AllDigits(day)
    requires |suffix| == 2 && !IsDigit(suffix[0])
    ensures var s := day + suffix + " " + rest;
      && DigitPrefixLength(s) == |day| && s[..|day|] == day
      && |day| + 3 <= |s| && s[|day| + 2] == ' ' && s[|day| + 3..] == rest
  {
    var s := day + suffix + " " + rest;
    var tail := suffix + " " + rest;
    assert s == day + tail;
    DigitPrefixOf(day, tail);
  }

  /** ParseFormatted once the day digits, the gap and the rest are located. */
  lemma ParseAfterDigits(s: string, day: string, rest: string)
    requires AllDigits(day) && |day| >= 1
    requires DigitPrefixLength(s) == |day| && |day| + 3 <= |s| && s[..|day|] == day
    requires s[|day| + 2] == ' ' && s[|day| + 3..] == rest
    ensures ParseFormatted(s) == WithDay(ParseMonthYear(rest), DigitsValue(day))
  {
  }

  /** Two dates with the same formatted text are the same date. */
  lemma FormatInjective(d1: Date, d2: Date)
    requires ValidDate(d1) && ValidDate(d2)
    requires FormatDate(Some(d1)) == FormatDate(Some(d2))
    ensures d1 == d2
  {
    ParseFormatRoundTrip(d1);
    ParseFormatRoundTrip(d2);
  }
}
