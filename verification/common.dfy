/** The tolerant field coercers of `src/services/common.rs` and the small
    field-rendering helpers both record models share. A coercer maps a missing
    cell to `None`, and a cell it cannot read to `None` as well (the source
    logs it), so one bad cell never stops a row. */
module Common {
  import opened Wrappers
  import opened Numbers
  import opened Dates

  /** A row of raw string cells, as the `csv` reader yields it. */
  type StringRecord = seq<string>

  /** A field list as `get_all_fields` returns it: name and rendered value. */
  type Fields = seq<(string, Option<string>)>

  /** An `f64` kept opaque: the model carries only the text its `Display`
      writes. */
  datatype F64 = F64(shown: string)

  /** `StringRecord::get`: the cell at column i, if the row has one. */
  function Get(record: StringRecord, i: nat): (r: Option<string>)
    ensures r.Some? <==> i < |record|
    ensures r.Some? ==> r.value == record[i]
  {
    if i < |record| then Some(record[i]) else None
  }

  /** `parse_date`: the `%Y/%m/%d` pattern. A date comes only from text in
      that form naming it. */
  function ParseDate(dateStr: Option<string>): (r: Option<NaiveDate>)
    ensures dateStr.None? ==> r.None?
    ensures r.Some? ==> InPatternForm(dateStr.value, '/', r.value)
  {
    match dateStr
    case None => None
    case Some(s) =>
      ParseDateTextShape(s, '/');
      ParseDateText(s, '/')
  }

  /** `parse_int`: every comma removed, then an i32 in Rust's grammar. */
  function ParseInt(numStr: Option<string>): (r: Option<I32>)
    ensures numStr.None? ==> r.None?
    ensures r.Some? ==> ParseSigned(RemoveCommas(numStr.value)) == Some(r.value)
  {
    match numStr
    case None => None
    case Some(s) =>
      match ParseSigned(RemoveCommas(s))
      case None => None
      case Some(n) => if IsI32(n) then Some(n) else None
  }

  /** `parse_float`: every comma removed, then the platform's f64 reader,
      which is the parameter `parseF64` here. */
  function ParseFloat(numStr: Option<string>, parseF64: string -> Option<F64>): (r: Option<F64>)
    ensures numStr.None? ==> r.None?
  {
    match numStr
    case None => None
    case Some(s) => parseF64(RemoveCommas(s))
  }

  /** `parse_string`: the cell unchanged. */
  function ParseString(value: Option<string>): (r: Option<string>)
    ensures r == value
  {
    match value
    case None => None
    case Some(s) => Some(s)
  }

  /** Round trip: a date written `YYYY/MM/DD` is read back as that date. */
  lemma ParseDateRoundTrip(d: NaiveDate)
    ensures ParseDate(Some(FormatDate(d, '/'))) == Some(d)
  {
    ParseFormattedDate(d, '/');
  }

  /** Exactly the text in the pattern's form is read, and as the date it
      names: year, `/`, a month of one or two digits, `/`, a day of one or
      two digits. */
  lemma ParseDateExactly(s: string, d: NaiveDate)
    ensures ParseDate(Some(s)) == Some(d) <==> InPatternForm(s, '/', d)
  {
    ParseDateTextShape(s, '/');
    if InPatternForm(s, '/', d) {
      var i, j :| 0 < i < j < |s| && PatternSplit(s, '/', d, i, j);
      ParseDateTextOfSplit(s, '/', d, i, j);
    }
  }

  /** Text without a `/` is never a date. */
  lemma ParseDateNeedsSlash(s: string)
    requires forall k :: 0 <= k < |s| ==> s[k] != '/'
    ensures ParseDate(Some(s)).None?
  {
  }

  /** Examples: ISO dashes and words are not dates. */
  lemma ParseDateRejectsOtherForms()
    ensures ParseDate(Some("2024-01-05")).None?
    ensures ParseDate(Some("abc")).None?
  {
    ParseDateNeedsSlash("2024-01-05");
    ParseDateNeedsSlash("abc");
  }

  /** Example: a one-digit month and day are read. */
  lemma ParseDateUnpadded()
    ensures ParseDate(Some("2024/1/5")) == Some(Date(2024, 1, 5))
  {
    var s := "2024/1/5";
    var year, month, day := s[..4], s[5..6], s[7..];
    assert year == "2024" && month == "1" && day == "5";
    DigitsOf2024();
    assert PatternSplit(s, '/', Date(2024, 1, 5), 4, 6);
    ParseDateTextOfSplit(s, '/', Date(2024, 1, 5), 4, 6);
  }

  lemma DigitsOf2024()
    ensures AllDigits("2024") && DigitsValue("2024") == 2024
  {
    var digits := "2024";
    assert DigitsValue(digits[..1]) == 2;
    assert digits[..2][..1] == digits[..1];
    assert DigitsValue(digits[..2]) == 20;
    assert digits[..3][..2] == digits[..2];
    assert DigitsValue(digits[..3]) == 202;
    assert digits[..3] == digits[..|digits| - 1];
  }

  /** Text in the pattern's form that names no real day (April 31, month
      13, day 0) is not a date. */
  lemma ParseDateRejectsImpossibleDays(y: int, month: nat, day: nat)
    requires month < 100 && day < 100
    requires !ValidDate(Date(y, month, day))
    ensures ParseDate(Some(FormatDate(Date(y, month, day), '/'))).None?
  {
    ParseFormattedFields(y, month, day, '/');
  }

  /** February 29 is read only in a leap year. */
  lemma ParseDateLeapDay()
    ensures ParseDate(Some(FormatDate(Date(2023, 2, 29), '/'))).None?
    ensures ParseDate(Some(FormatDate(Date(2024, 2, 29), '/'))) == Some(Date(2024, 2, 29))
  {
    assert !IsLeapYear(2023) && IsLeapYear(2024);
    ParseFormattedFields(2023, 2, 29, '/');
    ParseFormattedFields(2024, 2, 29, '/');
  }

  /** Round trip: the decimal form of any i32, with commas put in anywhere,
      is read back as that number. */
  lemma ParseIntRoundTrip(n: I32, s: string)
    requires RemoveCommas(s) == IntToString(n)
    ensures ParseInt(Some(s)) == Some(n)
  {
  }

  /** A comma between any two pieces of text changes nothing. */
  lemma ParseIntIgnoresCommas(a: string, b: string)
    ensures ParseInt(Some(a + "," + b)) == ParseInt(Some(a + b))
  {
    RemoveCommaBetween(a, b);
  }

  /** A number outside the i32 range is not read, even though its text is
      well-formed. */
  lemma ParseIntOutOfRange(n: int)
    requires !IsI32(n)
    ensures ParseInt(Some(IntToString(n))) == None
  {
  }

  /** Text that is not a number: the empty cell and the source data's `-`. */
  lemma ParseIntRejectsNonNumeric()
    ensures ParseInt(Some("")) == None
    ensures ParseInt(Some("-")) == None
  {
    assert RemoveCommas("-") == RemoveCommas([]) + "-";
  }

  /** The example of thousands separators: `"1,234"` reads as 1234. */
  lemma ParseIntThousands()
    ensures ParseInt(Some("1,234")) == Some(1234)
  {
    var text := "1,234";
    assert RemoveCommas(text[..1]) == "1" by { assert text[..1][..0] == []; }
    assert RemoveCommas(text[..2]) == "1" by { assert text[..2][..1] == text[..1]; }
    assert RemoveCommas(text[..3]) == "12" by { assert text[..3][..2] == text[..2]; }
    assert RemoveCommas(text[..4]) == "123" by { assert text[..4][..3] == text[..3]; }
    assert RemoveCommas(text) == "1234" by { assert text[..4] == text[..|text| - 1]; }
    DigitsOf1234();
    ParseIntOf(text, "1234", 1234);
  }

  lemma ParseIntOf(text: string, digits: string, n: int)
    requires RemoveCommas(text) == digits && ParseSigned(digits) == Some(n) && IsI32(n)
    ensures ParseInt(Some(text)) == Some(n)
  {
  }

  lemma DigitsOf1234()
    ensures ParseSigned("1234") == Some(1234)
  {
    var digits := "1234";
    assert DigitsValue(digits[..1]) == 1;
    assert digits[..2][..1] == digits[..1];
    assert DigitsValue(digits[..2]) == 12;
    assert digits[..3][..2] == digits[..2];
    assert DigitsValue(digits[..3]) == 123;
    assert digits[..3] == digits[..|digits| - 1];
    assert DigitsValue(digits) == 1234;
  }

  lemma RemoveCommasOfDigits(s: string)
    requires AllDigits(s)
    ensures RemoveCommas(s) == s
  {
    assert ',' !in s by {
      forall i | 0 <= i < |s| ensures s[i] != ',' {
        assert IsDigit(s[i]);
      }
    }
  }

  /** Like `parse_int`, `parse_float` never sees the commas. */
  lemma ParseFloatIgnoresCommas(a: string, b: string, parseF64: string -> Option<F64>)
    ensures ParseFloat(Some(a + "," + b), parseF64) == ParseFloat(Some(a + b), parseF64)
  {
    RemoveCommaBetween(a, b);
  }

  // Rendering of one field value, as the `.map(|x| x.to_string())` calls in
  // `get_all_fields` do it, and reading it back.

  /** The names of a field list, in order; the values are not looked at. */
  function Names(fields: Fields): (names: seq<string>)
    ensures |names| == |fields|
    ensures forall i :: 0 <= i < |fields| ==> names[i] == fields[i].0
  {
    seq(|fields|, i requires 0 <= i < |fields| => fields[i].0)
  }

  /** `NaiveDate::to_string` on a present date: ISO 8601 `YYYY-MM-DD`. */
  function ShowDate(o: Option<NaiveDate>): (r: Option<string>)
    ensures r.Some? <==> o.Some?
    ensures r.Some? ==> r.value == DateToString(o.value)
  {
    match o
    case None => None
    case Some(d) => Some(DateToString(d))
  }

  /** `to_string` on a present integer: its decimal form. */
  function ShowInt(o: Option<int>): (r: Option<string>)
    ensures r.Some? <==> o.Some?
    ensures r.Some? ==> ParseSigned(r.value) == Some(o.value) && ',' !in r.value
  {
    match o
    case None => None
    case Some(n) => Some(IntToString(n))
  }

  /** `to_string` on a present float: the text it displays as. */
  function ShowF64(o: Option<F64>): (r: Option<string>)
    ensures r.Some? <==> o.Some?
    ensures r.Some? ==> r.value == o.value.shown
  {
    match o
    case None => None
    case Some(f) => Some(f.shown)
  }

  function ReadDate(o: Option<string>): Option<NaiveDate>
  {
    match o
    case None => None
    case Some(s) => ParseDateText(s, '-')
  }

  function ReadInt(o: Option<string>): Option<int>
  {
    match o
    case None => None
    case Some(s) => ParseSigned(s)
  }

  function ReadF64(o: Option<string>): Option<F64>
  {
    match o
    case None => None
    case Some(s) => Some(F64(s))
  }

  function ReadI32(o: Option<string>): Option<I32>
  {
    match ReadInt(o)
    case None => None
    case Some(n) => if IsI32(n) then Some(n) else None
  }

  function ReadU32(o: Option<string>): Option<U32>
  {
    match ReadInt(o)
    case None => None
    case Some(n) => if 0 <= n <= MaxU32 then Some(n) else None
  }

  /** A rendered i32 reads back as the same number (or absence). */
  lemma ShowI32RoundTrip(o: Option<I32>)
    ensures ReadI32(ShowInt(o)) == o
  {
  }

  /** A rendered u32 reads back as the same number (or absence). */
  lemma ShowU32RoundTrip(o: Option<U32>)
    ensures ReadU32(ShowInt(o)) == o
  {
  }

  /** A rendered date reads back as the same date (or absence). */
  lemma ShowDateRoundTrip(o: Option<NaiveDate>)
    ensures ReadDate(ShowDate(o)) == o
  {
    if o.Some? {
      ParseFormattedDate(o.value, '-');
    }
  }
}
