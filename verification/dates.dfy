/** Calendar dates as the `chrono` crate's `NaiveDate` hands them to the
    record models: the `%Y/%m/%d` reader used by `parse_date`, and the
    ISO 8601 `Display` form used when a record lists its fields. */
module Dates {
  import opened Wrappers
  import opened Numbers

  /** The years a `NaiveDate` can hold. */
  const MinYear: int := -262143
  const MaxYear: int := 262142

  datatype Date = Date(year: int, month: int, day: int)

  /** Proleptic Gregorian leap years (Dafny's `%` is Euclidean, which is what
      the rule needs for negative years too). */
  predicate IsLeapYear(y: int) {
    y % 4 == 0 && (y % 100 != 0 || y % 400 == 0)
  }

  function DaysInMonth(y: int, m: int): (n: int)
    requires 1 <= m <= 12
    ensures 28 <= n <= 31
  {
    if m == 2 then (if IsLeapYear(y) then 29 else 28)
    else if m == 4 || m == 6 || m == 9 || m == 11 then 30
    else 31
  }

  predicate ValidDate(d: Date) {
    && MinYear <= d.year <= MaxYear
    && 1 <= d.month <= 12
    && 1 <= d.day <= DaysInMonth(d.year, d.month)
  }

  /** A `NaiveDate` is always a real calendar day. */
  type NaiveDate = d: Date | ValidDate(d) witness Date(1970, 1, 1)

  /** How many leading characters of `s` are digits, reading at most `maxWidth`. */
  function LeadingDigits(s: string, maxWidth: nat): (k: nat)
    ensures k <= |s| && k <= maxWidth
    ensures AllDigits(s[..k])
    ensures k < |s| && k < maxWidth ==> !IsDigit(s[k])
  {
    if maxWidth == 0 || s == [] || !IsDigit(s[0]) then 0
    else
      var k := 1 + LeadingDigits(s[1..], maxWidth - 1);
      assert s[..k] == [s[0]] + s[1..][..k - 1];
      k
  }

  /** A number of one to `maxWidth` digits, read greedily, and the text after it. */
  function ScanNumber(s: string, maxWidth: nat): Option<(nat, string)>
  {
    var k := LeadingDigits(s, maxWidth);
    if k == 0 then None else Some((DigitsValue(s[..k]), s[k..]))
  }

  /** `%Y`: up to four digits, or a sign followed by any number of digits. */
  function ScanYear(s: string): Option<(int, string)>
  {
    if s != [] && (s[0] == '-' || s[0] == '+') then
      match ScanNumber(s[1..], |s|)
      case None => None
      case Some((v, rest)) =>
        var w: int := v;
        Some((if s[0] == '-' then -w else w, rest))
    else
      match ScanNumber(s, 4)
      case None => None
      case Some((v, rest)) => Some((v as int, rest))
  }

  /** A literal character of the pattern. */
  function ScanLiteral(s: string, c: char): Option<string>
  {
    if s != [] && s[0] == c then Some(s[1..]) else None
  }

  /** `NaiveDate::parse_from_str` with the pattern `%Y<sep>%m<sep>%d`: year,
      separator, month, separator, day, and nothing after the day; the three
      numbers must name a real day. */
  function ParseDateText(s: string, sep: char): Option<NaiveDate>
  {
    match ScanYear(s)
    case None => None
    case Some((y, afterYear)) =>
      match ScanMonthDay(afterYear, sep)
      case None => None
      case Some((m, d)) =>
        if ValidDate(Date(y, m, d)) then Some(Date(y, m, d)) else None
  }

  /** `<sep>%m<sep>%d` and the end of the text. */
  function ScanMonthDay(s: string, sep: char): Option<(nat, nat)>
  {
    match ScanLiteral(s, sep)
    case None => None
    case Some(monthText) =>
      match ScanNumber(monthText, 2)
      case None => None
      case Some((m, afterMonth)) =>
        match ScanLiteral(afterMonth, sep)
        case None => None
        case Some(dayText) =>
          match ScanNumber(dayText, 2)
          case None => None
          case Some((d, rest)) => if rest == [] then Some((m, d)) else None
  }

  /** `t` is one to `maxWidth` digits with value `v`. */
  predicate NumberText(t: string, maxWidth: nat, v: int) {
    1 <= |t| <= maxWidth && AllDigits(t) && DigitsValue(t) == v
  }

  /** `t` is a year `%Y` accepts: one to four digits, or a sign followed by
      any positive number of digits. */
  predicate YearText(t: string, y: int) {
    || NumberText(t, 4, y)
    || (&& 2 <= |t| && (t[0] == '-' || t[0] == '+') && AllDigits(t[1..])
        && y == (if t[0] == '-' then -(DigitsValue(t[1..]) as int) else DigitsValue(t[1..]) as int))
  }

  /** `s` is a year, `sep`, a month of one or two digits, `sep` and a day of
      one or two digits, naming the fields of `d`, with nothing else. */
  predicate InPatternForm(s: string, sep: char, d: Date) {
    exists i, j | 0 < i < j < |s| :: PatternSplit(s, sep, d, i, j)
  }

  /** The two separators of `s` sit at `i` and `j`. */
  predicate PatternSplit(s: string, sep: char, d: Date, i: int, j: int) {
    && 0 < i < j < |s| && s[i] == sep && s[j] == sep
    && YearText(s[..i], d.year)
    && NumberText(s[i + 1..j], 2, d.month)
    && NumberText(s[j + 1..], 2, d.day)
  }

  /** The year as `NaiveDate`'s `Display` writes it: four digits for years
      0 to 9999, otherwise a sign and at least four digits. */
  function FormatYear(y: int): string
  {
    if 0 <= y <= 9999 then Pad(y, 4)
    else (if y < 0 then "-" else "+") + Pad(if y < 0 then -y else y, 4)
  }

  /** Year, month and day, the latter two as two digits, joined by `sep`. */
  function FormatDate(d: Date, sep: char): string
    requires d.month >= 0 && d.day >= 0
  {
    FormatYear(d.year) + [sep] + Pad(d.month, 2) + [sep] + Pad(d.day, 2)
  }

  /** `NaiveDate::to_string`: the ISO 8601 form `YYYY-MM-DD`. */
  function DateToString(d: NaiveDate): string
  {
    FormatDate(d, '-')
  }

  lemma {:induction false} LeadingDigitsOf(t: string, rest: string, maxWidth: nat)
    requires AllDigits(t) && |t| <= maxWidth
    requires rest == [] || !IsDigit(rest[0])
    ensures LeadingDigits(t + rest, maxWidth) == |t|
  {
    if t != [] {
      assert (t + rest)[1..] == t[1..] + rest;
      LeadingDigitsOf(t[1..], rest, maxWidth - 1);
    } else {
      assert t + rest == rest;
    }
  }

  lemma ScanNumberOf(t: string, rest: string, maxWidth: nat)
    requires AllDigits(t) && 1 <= |t| <= maxWidth
    requires rest == [] || !IsDigit(rest[0])
    ensures ScanNumber(t + rest, maxWidth) == Some((DigitsValue(t), rest))
  {
    LeadingDigitsOf(t, rest, maxWidth);
    assert (t + rest)[..|t|] == t;
    assert (t + rest)[|t|..] == rest;
  }

  /** Reading back a formatted year gives the year and leaves what follows. */
  lemma ScanFormattedYear(y: int, rest: string)
    requires rest == [] || !IsDigit(rest[0])
    ensures ScanYear(FormatYear(y) + rest) == Some((y, rest))
  {
    if 0 <= y <= 9999 {
      ScanFourDigitYear(y, rest);
    } else {
      ScanSignedYear(y, rest);
    }
  }

  lemma ScanFourDigitYear(y: int, rest: string)
    requires 0 <= y <= 9999
    requires rest == [] || !IsDigit(rest[0])
    ensures ScanYear(FormatYear(y) + rest) == Some((y, rest))
  {
    var digits := Pad(y, 4);
    NatToStringLength(y, 4);
    var s := digits + rest;
    assert FormatYear(y) + rest == s;
    assert IsDigit(s[0]);
    ScanNumberOf(digits, rest, 4);
  }

  lemma ScanSignedYear(y: int, rest: string)
    requires y < 0 || y > 9999
    requires rest == [] || !IsDigit(rest[0])
    ensures ScanYear(FormatYear(y) + rest) == Some((y, rest))
  {
    var a: nat := if y < 0 then -y else y;
    var sign := if y < 0 then '-' else '+';
    var digits := Pad(a, 4);
    assert FormatYear(y) == [sign] + digits;
    var s := [sign] + (digits + rest);
    Assoc3([sign], digits, rest);
    ScanNumberOf(digits, rest, |s|);
    ScanYearOfSign(s, sign, a, rest);
  }

  lemma Assoc3(a: string, b: string, c: string)
    ensures a + b + c == a + (b + c)
  {
  }

  lemma Assoc5(a: string, b: string, c: string, d: string, e: string)
    ensures a + b + c + d + e == a + (b + (c + (d + e)))
  {
  }

  /** A sign followed by a number is a year of that sign. */
  lemma ScanYearOfSign(s: string, sign: char, a: nat, rest: string)
    requires sign == '-' || sign == '+'
    requires s != [] && s[0] == sign
    requires ScanNumber(s[1..], |s|) == Some((a, rest))
    ensures ScanYear(s) == Some((if sign == '-' then -(a as int) else a as int, rest))
  {
  }

  /** Reading back a formatted month and day. */
  lemma ScanFormattedMonthDay(month: nat, day: nat, sep: char)
    requires month < 100 && day < 100
    requires !IsDigit(sep)
    ensures ScanMonthDay([sep] + (Pad(month, 2) + ([sep] + Pad(day, 2))), sep) == Some((month, day))
  {
    NatToStringLength(month, 2);
    NatToStringLength(day, 2);
    MonthDayOfText(Pad(month, 2), Pad(day, 2), sep, month, day);
  }

  /** Any year with a month and a day of at most two digits, written in the
      pattern's form, is read back exactly when those numbers name a real
      day; an impossible day (February 29 in a common year, April 31, month
      13, day 0) is rejected. */
  lemma ParseFormattedFields(y: int, month: nat, day: nat, sep: char)
    requires month < 100 && day < 100
    requires !IsDigit(sep)
    ensures ParseDateText(FormatDate(Date(y, month, day), sep), sep) ==
      (if ValidDate(Date(y, month, day)) then Some(Date(y, month, day)) else None)
  {
    var afterYear := [sep] + (Pad(month, 2) + ([sep] + Pad(day, 2)));
    var s := FormatYear(y) + afterYear;
    Assoc5(FormatYear(y), [sep], Pad(month, 2), [sep], Pad(day, 2));
    ScanFormattedYear(y, afterYear);
    ScanFormattedMonthDay(month, day, sep);
    ParseDateTextOf(s, sep, y, afterYear, month, day);
  }

  /** A year and then a month and day make the date they name, if any. */
  lemma ParseDateTextOf(s: string, sep: char, y: int, afterYear: string, month: nat, day: nat)
    requires ScanYear(s) == Some((y, afterYear))
    requires ScanMonthDay(afterYear, sep) == Some((month, day))
    ensures ParseDateText(s, sep) ==
      (if ValidDate(Date(y, month, day)) then Some(Date(y, month, day)) else None)
  {
  }

  /** Round trip: a valid date written with a non-digit separator is read
      back by the pattern with that separator as the same date. */
  lemma ParseFormattedDate(d: NaiveDate, sep: char)
    requires !IsDigit(sep)
    ensures ParseDateText(FormatDate(d, sep), sep) == Some(d)
  {
    ParseFormattedFields(d.year, d.month, d.day, sep);
  }

  /** A number that was scanned is a run of digits of its value, and the
      text after it. */
  lemma ScanNumberShape(s: string, maxWidth: nat, v: nat, rest: string)
    requires ScanNumber(s, maxWidth) == Some((v, rest))
    ensures |rest| < |s|
    ensures NumberText(s[..|s| - |rest|], maxWidth, v)
    ensures s == s[..|s| - |rest|] + rest
    ensures rest == [] || |s| - |rest| == maxWidth || !IsDigit(rest[0])
  {
    var k := LeadingDigits(s, maxWidth);
    assert s == s[..k] + s[k..];
  }

  /** Soundness of the pattern reader: whatever it accepts is in the
      pattern's form, with the fields of the date it returns. */
  lemma {:induction false} ParseDateTextShape(s: string, sep: char)
    ensures ParseDateText(s, sep).Some? ==> InPatternForm(s, sep, ParseDateText(s, sep).value)
  {
    if ParseDateText(s, sep).Some? {
      var d := ParseDateText(s, sep).value;
      var (y, afterYear) := ScanYear(s).value;
      var i := YearShape(s, y, afterYear);
      MonthDayShape(s, sep, i, d);
      assert PatternSplit(s, sep, d, i, i + 1 + |s[i + 1..]| - |ScanNumber(s[i + 1..], 2).value.1|);
    }
  }

  /** The year the reader takes is the text before `i`, and the rest starts
      at `i`. */
  lemma YearShape(s: string, y: int, afterYear: string) returns (i: nat)
    requires ScanYear(s) == Some((y, afterYear))
    ensures 0 < i <= |s| && afterYear == s[i..] && YearText(s[..i], y)
  {
    if s != [] && (s[0] == '-' || s[0] == '+') {
      var (v, rest) := ScanNumber(s[1..], |s|).value;
      ScanNumberShape(s[1..], |s|, v, rest);
      i := |s| - |rest|;
      assert s[1..] == s[1..i] + rest;
      assert s[..i][1..] == s[1..i];
    } else {
      var (v, rest) := ScanNumber(s, 4).value;
      ScanNumberShape(s, 4, v, rest);
      i := |s| - |rest|;
    }
  }

  /** After the year, the reader takes `sep`, a month, `sep` and a day that
      runs to the end. */
  lemma MonthDayShape(s: string, sep: char, i: nat, d: Date)
    requires 0 < i <= |s|
    requires ScanYear(s) == Some((d.year, s[i..])) && YearText(s[..i], d.year)
    requires ScanMonthDay(s[i..], sep) == Some((d.month, d.day))
    ensures i < |s| && s[i] == sep
    ensures var monthText := s[i + 1..];
      var afterMonth := ScanNumber(monthText, 2).value.1;
      var j := i + 1 + |monthText| - |afterMonth|;
      PatternSplit(s, sep, d, i, j)
  {
    var monthText := s[i + 1..];
    var (m, afterMonth) := ScanNumber(monthText, 2).value;
    ScanNumberShape(monthText, 2, m, afterMonth);
    var j := i + 1 + |monthText| - |afterMonth|;
    assert s[i + 1..j] == monthText[..|monthText| - |afterMonth|];
    assert afterMonth == s[j..];
    var dayText := s[j + 1..];
    var (dd, rest) := ScanNumber(dayText, 2).value;
    ScanNumberShape(dayText, 2, dd, rest);
    assert dayText[..|dayText| - |rest|] == dayText;
  }

  /** Completeness of the pattern reader: text in the pattern's form that
      names a real day is read as that day, whatever the width of its
      month and day (`2024/1/5` as well as `2024/01/05`). */
  lemma ParseDateTextOfSplit(s: string, sep: char, d: Date, i: int, j: int)
    requires !IsDigit(sep)
    requires PatternSplit(s, sep, d, i, j)
    ensures ParseDateText(s, sep) == (if ValidDate(d) then Some(d) else None)
  {
    var yearText, afterYear := s[..i], s[i..];
    assert s == yearText + afterYear;
    YearOfText(yearText, afterYear, d.year);
    var monthText, dayText := s[i + 1..j], s[j + 1..];
    assert afterYear == [sep] + (monthText + ([sep] + dayText));
    MonthDayOfText(monthText, dayText, sep, d.month, d.day);
    ParseDateTextOf(s, sep, d.year, afterYear, d.month, d.day);
  }

  /** A month and a day of one or two digits each, after separators, are
      scanned as their values. */
  lemma MonthDayOfText(monthText: string, dayText: string, sep: char, month: nat, day: nat)
    requires NumberText(monthText, 2, month) && NumberText(dayText, 2, day)
    requires !IsDigit(sep)
    ensures ScanMonthDay([sep] + (monthText + ([sep] + dayText)), sep) == Some((month, day))
  {
    var dayPart := [sep] + dayText;
    var afterYear := [sep] + (monthText + dayPart);
    assert ScanLiteral(afterYear, sep) == Some(monthText + dayPart);
    ScanNumberOf(monthText, dayPart, 2);
    assert ScanLiteral(dayPart, sep) == Some(dayText);
    ScanNumberOf(dayText, [], 2);
    assert dayText + [] == dayText;
  }

  /** A year text followed by a non-digit is scanned as its year. */
  lemma YearOfText(t: string, rest: string, y: int)
    requires YearText(t, y) && rest != [] && !IsDigit(rest[0])
    ensures ScanYear(t + rest) == Some((y, rest))
  {
    if NumberText(t, 4, y) {
      ScanNumberOf(t, rest, 4);
      assert IsDigit(t[0]);
    } else {
      var s := t + rest;
      assert s[1..] == t[1..] + rest;
      ScanNumberOf(t[1..], rest, |s|);
      var v := DigitsValue(t[1..]);
      ScanYearOfSign(s, t[0], v, rest);
    }
  }
}
