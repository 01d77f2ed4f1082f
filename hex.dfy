/**
 * Hex encoding of a digest as the source writes it: String.format("%02x", b)
 * for each signed Java byte, appended in order.  "%x" of a negative byte
 * prints the byte plus 256, so every byte gives exactly two lowercase digits.
 */
module Hex {

  /** Java's byte. */
  type Int8 = x: int | -0x80 <= x < 0x80

  predicate IsLowerHexDigit(c: char)
  {
    '0' <= c <= '9' || 'a' <= c <= 'f'
  }

  predicate IsLowerHex(s: string)
  {
    forall i :: 0 <= i < |s| ==> IsLowerHexDigit(s[i])
  }

  function HexDigit(d: nat): (c: char)
    requires d < 16
    ensures IsLowerHexDigit(c)
  {
    if d < 10 then ('0' as int + d) as char else ('a' as int + d - 10) as char
  }

  function HexValue(c: char): (d: nat)
    requires IsLowerHexDigit(c)
    ensures d < 16
  {
    if c <= '9' then c as int - '0' as int else c as int - 'a' as int + 10
  }

  /** The value "%x" prints for a byte. */
  function Unsigned(b: Int8): (v: nat)
    ensures v < 0x100
  {
    if b < 0 then b as int + 0x100 else b
  }

  function Signed(v: nat): Int8
    requires v < 0x100
  {
    if v >= 0x80 then v - 0x100 else v
  }

  /** String.format("%02x", b). */
  function HexByte(b: Int8): (r: string)
    ensures |r| == 2 && IsLowerHex(r)
  {
    [HexDigit(Unsigned(b) / 16), HexDigit(Unsigned(b) % 16)]
  }

  /** The digits of every byte, in order. */
  function HexEncode(bs: seq<Int8>): (r: string)
    ensures |r| == 2 * |bs| && IsLowerHex(r)
  {
    if bs == [] then "" else HexEncode(bs[..|bs| - 1]) + HexByte(bs[|bs| - 1])
  }

  /** Reads back two digits per byte. */
  function HexDecode(s: string): seq<Int8>
    requires |s| % 2 == 0 && IsLowerHex(s)
  {
    if s == [] then []
    else HexDecode(s[..|s| - 2]) + [Signed(HexValue(s[|s| - 2]) * 16 + HexValue(s[|s| - 1]))]
  }

  lemma HexDigitValue(d: nat)
    requires d < 16
    ensures HexValue(HexDigit(d)) == d
  {
  }

  lemma HexByteValue(b: Int8)
    ensures Signed(HexValue(HexByte(b)[0]) * 16 + HexValue(HexByte(b)[1])) == b
  {
    var v := Unsigned(b);
    HexDigitValue(v / 16);
    HexDigitValue(v % 16);
    assert v / 16 * 16 + v % 16 == v;
  }

  /** Decoding the hex digits of a digest gives the digest back. */
  lemma {:induction false} HexRoundTrip(bs: seq<Int8>)
    ensures HexDecode(HexEncode(bs)) == bs
  {
    if bs != [] {
      var s := HexEncode(bs);
      var last := HexByte(bs[|bs| - 1]);
      assert s == HexEncode(bs[..|bs| - 1]) + last;
      assert s[..|s| - 2] == HexEncode(bs[..|bs| - 1]);
      assert s[|s| - 2] == last[0] && s[|s| - 1] == last[1];
      HexRoundTrip(bs[..|bs| - 1]);
      HexByteValue(bs[|bs| - 1]);
    }
  }

  /** Distinct digests have distinct hex strings. */
  lemma HexInjective(a: seq<Int8>, b: seq<Int8>)
    requires HexEncode(a) == HexEncode(b)
    ensures a == b
  {
    HexRoundTrip(a);
    HexRoundTrip(b);
  }
}
