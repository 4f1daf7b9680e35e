/**
 * `hex_to_string`: every digest byte is written with `{:x}`, i.e. lower-case
 * hexadecimal WITHOUT zero padding, so a byte below 16 gives one character and
 * any other byte gives two.
 */
module Hex {
  import opened Types

  predicate IsHexChar(c: char) {
    '0' <= c <= '9' || 'a' <= c <= 'f'
  }

  /** Lower-case hexadecimal text, as `hex_to_string` produces. */
  predicate IsHexString(s: string) {
    forall i :: 0 <= i < |s| ==> IsHexChar(s[i])
  }

  function HexDigit(d: nat): (c: char)
    requires d < 16
  {
    if d < 10 then ('0' as int + d) as char else ('a' as int + d - 10) as char
  }

  function DigitValue(c: char): (d: nat)
    requires IsHexChar(c)
    ensures d < 16 && HexDigit(d) == c
  {
    if c <= '9' then c as int - '0' as int else c as int - 'a' as int + 10
  }

  /** The number a hexadecimal numeral denotes (most significant digit first). */
  function HexValue(s: string): nat
    requires IsHexString(s)
  {
    if s == [] then 0 else 16 * HexValue(s[..|s| - 1]) + DigitValue(s[|s| - 1])
  }

  /** `format!("{:x}", b)`: one digit below 16, two digits otherwise. */
  function HexByte(b: byte): (r: string)
    ensures IsHexString(r)
    ensures 1 <= |r| <= 2 && (|r| == 2 <==> b >= 16)
  {
    if b < 16 then [HexDigit(b)] else [HexDigit(b / 16), HexDigit(b % 16)]
  }

  /**
   * Reading the rendering back as a hexadecimal numeral gives the byte, and
   * it has no leading zero: it is the shortest lower-case numeral of `b`.
   */
  lemma HexByteRoundTrip(b: byte)
    ensures HexValue(HexByte(b)) == b
    ensures HexByte(b)[0] == '0' ==> b == 0
  {
    var r := HexByte(b);
    if b >= 16 {
      var high, low := b / 16, b % 16;
      assert DigitValue(HexDigit(high)) == high;
      assert DigitValue(HexDigit(low)) == low;
      assert r[..1] == [HexDigit(high)];
      assert [HexDigit(high)][..0] == [];
      assert HexValue(r[..1]) == 16 * HexValue(r[..1][..0]) + DigitValue(r[..1][0]);
      assert HexValue(r[..1]) == high;
      assert HexValue(r) == 16 * HexValue(r[..1]) + DigitValue(r[1]);
      assert 16 * high + low == b;
    } else {
      assert DigitValue(HexDigit(b)) == b;
      assert r[..0] == [];
    }
  }

  /** What `hex_to_string` returns: the renderings of the bytes, in input order. */
  function HexOf(bs: seq<byte>): (r: string)
    ensures IsHexString(r)
    ensures |bs| <= |r| <= 2 * |bs|
  {
    if bs == [] then "" else HexOf(bs[..|bs| - 1]) + HexByte(bs[|bs| - 1])
  }

  /** `hex_to_string`: append the rendering of each byte to a growing string. */
  method HexToString(bs: seq<byte>) returns (s: string)
    ensures s == HexOf(bs)
  {
    s := "";
    var i := 0;
    while i < |bs|
      invariant 0 <= i <= |bs|
      invariant s == HexOf(bs[..i])
    {
      assert bs[..i + 1][..i] == bs[..i];
      s := s + HexByte(bs[i]);
      i := i + 1;
    }
    assert bs[..i] == bs;
  }

  /** Rendering distributes over concatenation: the output keeps the input's byte order. */
  lemma {:induction false} HexOfAppend(a: seq<byte>, b: seq<byte>)
    ensures HexOf(a + b) == HexOf(a) + HexOf(b)
    decreases |b|
  {
    if b == [] {
      assert a + b == a;
    } else {
      var init := b[..|b| - 1];
      assert (a + b)[..|a + b| - 1] == a + init;
      assert (a + b)[|a + b| - 1] == b[|b| - 1];
      HexOfAppend(a, init);
    }
  }

  /** The first byte's rendering comes first. */
  lemma HexOfCons(b: byte, rest: seq<byte>)
    ensures HexOf([b] + rest) == HexByte(b) + HexOf(rest)
  {
    HexOfAppend([b], rest);
    assert [b][..0] == [];
  }

  /** A rendering that starts with `0` starts with a zero byte, rendered alone. */
  lemma ZeroByteFirst(bs: seq<byte>)
    requires |HexOf(bs)| > 0 && HexOf(bs)[0] == '0'
    ensures bs != [] && bs[0] == 0 && HexOf(bs) == "0" + HexOf(bs[1..])
  {
    assert bs != [];
    assert bs == [bs[0]] + bs[1..];
    HexOfCons(bs[0], bs[1..]);
    assert HexByte(bs[0])[0] == '0';
    HexByteRoundTrip(bs[0]);
  }

  /**
   * A run of `'0'`s at the front of a rendering comes only from zero bytes,
   * each rendered as the single character `0`, so it is never longer than
   * the byte string.
   */
  lemma {:induction false} LeadingZeros(bs: seq<byte>, k: nat)
    requires k <= |HexOf(bs)|
    requires forall i :: 0 <= i < k ==> HexOf(bs)[i] == '0'
    ensures k <= |bs|
    decreases |bs|
  {
    if k > 0 {
      ZeroByteFirst(bs);
      var s, rest := HexOf(bs), HexOf(bs[1..]);
      assert s == "0" + rest;
      assert forall i :: 0 <= i < k - 1 ==> rest[i] == s[i + 1];
      LeadingZeros(bs[1..], k - 1);
    }
  }

  /**
   * The output has between n and 2n characters for n bytes; it has exactly 2n
   * only when every byte is at least 16, and exactly n only when every byte is
   * below 16.
   */
  lemma {:induction false} HexOfLength(bs: seq<byte>)
    ensures |bs| <= |HexOf(bs)| <= 2 * |bs|
    ensures |HexOf(bs)| == 2 * |bs| <==> forall i :: 0 <= i < |bs| ==> bs[i] >= 16
    ensures |HexOf(bs)| == |bs| <==> forall i :: 0 <= i < |bs| ==> bs[i] < 16
  {
    if bs != [] {
      var init := bs[..|bs| - 1];
      HexOfLength(init);
      assert forall i :: 0 <= i < |init| ==> init[i] == bs[i];
      assert |HexOf(bs)| == |HexOf(init)| + |HexByte(bs[|bs| - 1])|;
    }
  }

  /**
   * Without padding the rendering is not injective: two different byte
   * strings of the same length can give the same text.
   */
  lemma HexNotInjective()
    ensures exists a: seq<byte>, b: seq<byte> :: a != b && |a| == |b| && HexOf(a) == HexOf(b)
  {
    var a: seq<byte> := [0x01, 0x23];
    var b: seq<byte> := [0x12, 0x03];
    assert a[..1] == [0x01] && [0x01][..0] == [];
    assert b[..1] == [0x12] && [0x12][..0] == [];
    assert HexOf(a) == "1" + "23";
    assert HexOf(b) == "12" + "3";
    assert a[0] != b[0];
  }
}
