/** Machine integers and their decimal text, as Rust's `str::parse` and
    `to_string` treat them. */
module Numbers {
  import opened Wrappers

  const MinI32: int := -0x8000_0000
  const MaxI32: int := 0x7FFF_FFFF
  const MaxU32: int := 0xFFFF_FFFF

  type I32 = n: int | -0x8000_0000 <= n <= 0x7FFF_FFFF
  type U32 = n: int | 0 <= n <= 0xFFFF_FFFF
  type byte = b: int | 0 <= b < 0x100

  predicate IsI32(n: int) { MinI32 <= n <= MaxI32 }

  predicate IsDigit(c: char) { '0' <= c <= '9' }

  predicate AllDigits(s: string) { forall i :: 0 <= i < |s| ==> IsDigit(s[i]) }

  function DigitValue(c: char): (d: nat)
    requires IsDigit(c)
    ensures d < 10
  {
    c as int - '0' as int
  }

  function DigitChar(d: nat): (c: char)
    requires d < 10
    ensures IsDigit(c) && DigitValue(c) == d
  {
    ('0' as int + d) as char
  }

  /** The value of a string of decimal digits, most significant first. */
  function DigitsValue(s: string): nat
    requires AllDigits(s)
  {
    if s == [] then 0 else DigitsValue(s[..|s| - 1]) * 10 + DigitValue(s[|s| - 1])
  }

  /** Rust's `Display` of a non-negative integer: its digits, no leading zero. */
  function NatToString(n: nat): (s: string)
    ensures 1 <= |s| && AllDigits(s)
    ensures DigitsValue(s) == n
    ensures 1 < |s| ==> s[0] != '0'
  {
    if n < 10 then [DigitChar(n)]
    else
      var init := NatToString(n / 10);
      var s := init + [DigitChar(n % 10)];
      assert s[..|s| - 1] == init;
      s
  }

  /** Rust's `Display` of a signed integer: a minus sign for a negative value,
      never a plus sign. Parsing the text back gives the value again. */
  function IntToString(n: int): (s: string)
    ensures ParseSigned(s) == Some(n)
    ensures ',' !in s
  {
    var digits := NatToString(if n < 0 then -n else n);
    if n < 0 then
      var s := "-" + digits;
      assert s[1..] == digits;
      s
    else digits
  }

  /** The grammar of Rust's `str::parse` for a signed integer, before its range
      check: one optional `+` or `-`, then one or more ASCII digits, nothing else. */
  function ParseSigned(t: string): Option<int>
  {
    if t == [] then None
    else if t[0] == '+' || t[0] == '-' then
      var digits := t[1..];
      if digits == [] || !AllDigits(digits) then None
      else
        var v: int := DigitsValue(digits);
        Some(if t[0] == '-' then -v else v)
    else if AllDigits(t) then Some(DigitsValue(t) as int)
    else None
  }

  /** `s.replace(",", "")`: the text with every comma taken out. */
  function RemoveCommas(s: string): (r: string)
    ensures ',' !in r
    ensures |r| <= |s|
    ensures ',' !in s ==> r == s
  {
    if s == [] then []
    else
      var init := s[..|s| - 1];
      assert ',' !in s ==> ',' !in init by {
        if ',' in init {
          var i :| 0 <= i < |init| && init[i] == ',';
          assert s[i] == ',';
        }
      }
      assert s == init + [s[|s| - 1]];
      RemoveCommas(init) + (if s[|s| - 1] == ',' then [] else [s[|s| - 1]])
  }

  /** Removing commas distributes over concatenation. */
  lemma {:induction false} RemoveCommasAppend(a: string, b: string)
    ensures RemoveCommas(a + b) == RemoveCommas(a) + RemoveCommas(b)
  {
    if b == [] {
      assert a + b == a;
    } else {
      var init := b[..|b| - 1];
      assert (a + b)[..|a + b| - 1] == a + init;
      RemoveCommasAppend(a, init);
    }
  }

  /** A comma inserted anywhere is removed again. */
  lemma RemoveCommaBetween(a: string, b: string)
    ensures RemoveCommas(a + "," + b) == RemoveCommas(a + b)
  {
    var comma: string := [','];
    assert RemoveCommas(comma) == [] by {
      assert comma[..0] == [];
    }
    var x := a + comma;
    RemoveCommasAppend(a, comma);
    assert RemoveCommas(x) == RemoveCommas(a);
    RemoveCommasAppend(x, b);
    RemoveCommasAppend(a, b);
    assert a + "," + b == x + b;
  }

  /** A zero value written with leading zeros is still read as the same value. */
  lemma {:induction false} DigitsValueLeadingZeros(z: string, s: string)
    requires AllDigits(z) && DigitsValue(z) == 0 && AllDigits(s)
    ensures AllDigits(z + s) && DigitsValue(z + s) == DigitsValue(s)
  {
    if s == [] {
      assert z + s == z;
    } else {
      var init := s[..|s| - 1];
      assert (z + s)[..|z + s| - 1] == z + init;
      DigitsValueLeadingZeros(z, init);
    }
  }

  function Pow10(k: nat): (p: nat)
    ensures p >= 1
  {
    if k == 0 then 1 else 10 * Pow10(k - 1)
  }

  /** A number below 10^k has at most k digits. */
  lemma {:induction false} NatToStringLength(n: nat, k: nat)
    requires 1 <= k && n < Pow10(k)
    ensures |NatToString(n)| <= k
  {
    if n >= 10 {
      assert k >= 2;
      NatToStringLength(n / 10, k - 1);
    }
  }

  function Zeros(k: nat): (s: string)
    ensures |s| == k && AllDigits(s) && DigitsValue(s) == 0
  {
    if k == 0 then []
    else
      var init := Zeros(k - 1);
      var s := init + ['0'];
      assert s[..|s| - 1] == init;
      s
  }

  /** Rust's `{:0w}`: the digits of n, left-padded with zeros to width w. */
  function Pad(n: nat, width: nat): (s: string)
    ensures AllDigits(s) && DigitsValue(s) == n && |s| >= width
    ensures |NatToString(n)| <= width ==> |s| == width
  {
    var t := NatToString(n);
    if |t| >= width then t
    else
      DigitsValueLeadingZeros(Zeros(width - |t|), t);
      Zeros(width - |t|) + t
  }
}
