/** UTF-8 as section 4 of RFC 3629 defines it: the byte-sequence syntax that
    `std::str::from_utf8` accepts, and the encoder it is the image of. */
module Utf8 {
  import opened Numbers

  /** A continuation byte, `%x80-BF`. */
  predicate IsTail(b: byte) { 0x80 <= b <= 0xBF }

  /** The length of the character that a lead byte starts, or 0 for a byte
      that cannot start one (`%x80-C1` and `%xF5-FF`). */
  function SeqLen(b: byte): (n: nat)
    ensures n <= 4
  {
    if b <= 0x7F then 1
    else if 0xC2 <= b <= 0xDF then 2
    else if 0xE0 <= b <= 0xEF then 3
    else if 0xF0 <= b <= 0xF4 then 4
    else 0
  }

  /** The range the second byte must fall in, which four lead bytes narrow to
      exclude overlong forms, surrogates and values above U+10FFFF. */
  predicate SecondOk(b0: byte, b1: byte) {
    if b0 == 0xE0 then 0xA0 <= b1 <= 0xBF
    else if b0 == 0xED then 0x80 <= b1 <= 0x9F
    else if b0 == 0xF0 then 0x90 <= b1 <= 0xBF
    else if b0 == 0xF4 then 0x80 <= b1 <= 0x8F
    else IsTail(b1)
  }

  /** `s` is the start (possibly all) of some character. */
  predicate Consistent(s: seq<byte>) {
    && 1 <= |s| <= SeqLen(s[0])
    && (|s| >= 2 ==> SecondOk(s[0], s[1]))
    && (forall i :: 2 <= i < |s| ==> IsTail(s[i]))
  }

  /** One whole character (`UTF8-char`). */
  predicate ValidChar(c: seq<byte>) {
    Consistent(c) && |c| == SeqLen(c[0])
  }

  /** `UTF8-octets`: whole characters one after another. */
  predicate ValidUtf8(s: seq<byte>)
    decreases |s|
  {
    s == [] ||
      var n := SeqLen(s[0]);
      n > 0 && n <= |s| && ValidChar(s[..n]) && ValidUtf8(s[n..])
  }

  /** Whole characters followed by at most one character cut short. */
  predicate ValidPartial(s: seq<byte>)
    decreases |s|
  {
    s == [] ||
      var n := SeqLen(s[0]);
      n > 0 &&
        if |s| < n then Consistent(s)
        else ValidChar(s[..n]) && ValidPartial(s[n..])
  }

  /** A Unicode scalar value: a code point that is not a surrogate. */
  predicate IsScalar(c: int) {
    0 <= c <= 0x10FFFF && !(0xD800 <= c <= 0xDFFF)
  }

  /** The UTF-8 form of a scalar value: always exactly one valid character,
      as short as the value allows. */
  function EncodeScalar(c: int): (bs: seq<byte>)
    requires IsScalar(c)
    ensures ValidChar(bs)
    ensures |bs| == (if c < 0x80 then 1 else if c < 0x800 then 2 else if c < 0x10000 then 3 else 4)
  {
    if c < 0x80 then [c]
    else if c < 0x800 then
      TwoByteForm(c);
      [0xC0 + c / 64, 0x80 + c % 64]
    else if c < 0x10000 then
      ThreeByteForm(c);
      [0xE0 + c / 4096, 0x80 + (c / 64) % 64, 0x80 + c % 64]
    else
      FourByteForm(c);
      [0xF0 + c / 262144, 0x80 + (c / 4096) % 64, 0x80 + (c / 64) % 64, 0x80 + c % 64]
  }

  lemma TwoByteForm(c: int)
    requires 0x80 <= c < 0x800
    ensures 0xC2 <= 0xC0 + c / 64 <= 0xDF && IsTail(0x80 + c % 64)
    ensures ValidChar([0xC0 + c / 64, 0x80 + c % 64])
  {
  }

  lemma ThreeByteForm(c: int)
    requires 0x800 <= c < 0x10000 && IsScalar(c)
    ensures var b0, b1 := 0xE0 + c / 4096, 0x80 + (c / 64) % 64;
      0xE0 <= b0 <= 0xEF && IsTail(b1) && IsTail(0x80 + c % 64) && SecondOk(b0, b1)
    ensures ValidChar([0xE0 + c / 4096, 0x80 + (c / 64) % 64, 0x80 + c % 64])
  {
    var b0, b1 := 0xE0 + c / 4096, 0x80 + (c / 64) % 64;
    assert b0 == 0xE0 ==> b1 >= 0xA0;
    assert b0 == 0xED ==> b1 <= 0x9F;
  }

  lemma FourByteForm(c: int)
    requires 0x10000 <= c && IsScalar(c)
    ensures var b0, b1 := 0xF0 + c / 262144, 0x80 + (c / 4096) % 64;
      0xF0 <= b0 <= 0xF4 && IsTail(b1) && SecondOk(b0, b1)
    ensures ValidChar([0xF0 + c / 262144, 0x80 + (c / 4096) % 64, 0x80 + (c / 64) % 64, 0x80 + c % 64])
  {
    var b0, b1 := 0xF0 + c / 262144, 0x80 + (c / 4096) % 64;
    assert b0 == 0xF0 ==> b1 >= 0x90;
    assert b0 == 0xF4 ==> b1 <= 0x8F;
  }

  /** The scalar value one character encodes: the payload bits of each byte,
      most significant first. */
  function DecodeChar(bs: seq<byte>): int
    requires ValidChar(bs)
  {
    if |bs| == 1 then bs[0] as int
    else if |bs| == 2 then (bs[0] as int - 0xC0) * 64 + (bs[1] as int - 0x80)
    else if |bs| == 3 then (bs[0] as int - 0xE0) * 4096 + (bs[1] as int - 0x80) * 64 + (bs[2] as int - 0x80)
    else (bs[0] as int - 0xF0) * 262144 + (bs[1] as int - 0x80) * 4096 + (bs[2] as int - 0x80) * 64 + (bs[3] as int - 0x80)
  }

  /** Round trip: the encoding of a scalar value decodes to that value. */
  lemma DecodeEncodeScalar(c: int)
    requires IsScalar(c)
    ensures DecodeChar(EncodeScalar(c)) == c
  {
    if c >= 0x80 {
      assert c == (c / 64) * 64 + c % 64;
      if c >= 0x800 {
        assert c / 64 == ((c / 64) / 64) * 64 + (c / 64) % 64;
        assert (c / 64) / 64 == c / 4096;
        if c >= 0x10000 {
          assert c / 4096 == (c / 4096 / 64) * 64 + (c / 4096) % 64;
          assert c / 4096 / 64 == c / 262144;
        }
      }
    }
  }

  /** The UTF-8 form of a text, character by character. */
  function EncodeAll(cs: seq<int>): seq<byte>
    requires forall i :: 0 <= i < |cs| ==> IsScalar(cs[i])
  {
    if cs == [] then [] else EncodeScalar(cs[0]) + EncodeAll(cs[1..])
  }

  /** A valid character in front of valid UTF-8 is valid UTF-8. */
  lemma PrependChar(c: seq<byte>, rest: seq<byte>)
    requires ValidChar(c)
    requires ValidUtf8(rest)
    ensures ValidUtf8(c + rest)
  {
    var s := c + rest;
    assert s[0] == c[0];
    assert s[..|c|] == c;
    assert s[|c|..] == rest;
  }

  /** Every encoded text is valid UTF-8. */
  lemma {:induction false} EncodeAllValid(cs: seq<int>)
    requires forall i :: 0 <= i < |cs| ==> IsScalar(cs[i])
    ensures ValidUtf8(EncodeAll(cs))
  {
    if cs != [] {
      EncodeAllValid(cs[1..]);
      PrependChar(EncodeScalar(cs[0]), EncodeAll(cs[1..]));
    }
  }

  /** ASCII bytes are valid UTF-8, one character each. */
  lemma {:induction false} AsciiValid(s: seq<byte>)
    requires forall i :: 0 <= i < |s| ==> s[i] < 0x80
    ensures ValidUtf8(s)
  {
    if s != [] {
      AsciiValid(s[1..]);
      assert s[..1] == [s[0]];
    }
  }

  /** Complete UTF-8 is in particular valid up to a cut character. */
  lemma {:induction false} ValidIsPartial(s: seq<byte>)
    requires ValidUtf8(s)
    ensures ValidPartial(s)
    decreases |s|
  {
    if s != [] {
      ValidIsPartial(s[SeqLen(s[0])..]);
    }
  }

  /** Every prefix of valid UTF-8 is whole characters followed by at most
      one character cut short. */
  lemma {:induction false} PrefixIsPartial(s: seq<byte>, k: nat)
    requires ValidUtf8(s)
    requires k <= |s|
    ensures ValidPartial(s[..k])
    decreases |s|
  {
    if k > 0 {
      var n := SeqLen(s[0]);
      var p := s[..k];
      assert p[0] == s[0];
      if k < n {
        assert forall i :: 0 <= i < k ==> p[i] == s[..n][i];
      } else {
        assert p[..n] == s[..n];
        assert p[n..] == s[n..][..k - n];
        PrefixIsPartial(s[n..], k - n);
      }
    }
  }
}
