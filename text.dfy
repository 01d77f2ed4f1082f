/**
 * The pieces of java.lang the queue service relies on: Long.toString and
 * "%d" (decimal, '-' for negatives), String.equalsIgnoreCase, and
 * String.getBytes(UTF_8).
 */
module Text {
  import opened Wrappers

  /** Java's long. */
  type Long = x: int | -0x8000_0000_0000_0000 <= x < 0x8000_0000_0000_0000

  /** An unsigned byte as UTF-8 produces it. */
  type Uint8 = x: int | 0 <= x < 0x100

  predicate IsDigit(c: char)
  {
    '0' <= c <= '9'
  }

  function DigitChar(d: nat): (c: char)
    requires d < 10
    ensures IsDigit(c)
  {
    ('0' as int + d) as char
  }

  /** Decimal digits of a natural number, no leading zeros. */
  function Digits(n: nat): (r: string)
    ensures |r| > 0 && forall i :: 0 <= i < |r| ==> IsDigit(r[i])
  {
    if n < 10 then [DigitChar(n)] else Digits(n / 10) + [DigitChar(n % 10)]
  }

  /** Long.toString(n), and what "%d" prints. */
  function Decimal(n: int): (r: string)
  {
    if n < 0 then "-" + Digits(-n) else Digits(n)
  }

  /** The value of a string of decimal digits. */
  function DigitsValue(s: string): nat
    requires forall i :: 0 <= i < |s| ==> IsDigit(s[i])
  {
    if s == [] then 0
    else
      assert IsDigit(s[|s| - 1]);
      DigitsValue(s[..|s| - 1]) * 10 + (s[|s| - 1] as int - '0' as int)
  }

  /** Long.parseLong of what Decimal prints. */
  function ParseDecimal(s: string): int
    requires s != [] ==> forall i :: (if s[0] == '-' then 1 else 0) <= i < |s| ==> IsDigit(s[i])
  {
    if s != [] && s[0] == '-' then -(DigitsValue(s[1..]) as int) else DigitsValue(s)
  }

  lemma {:induction false} DigitsRoundTrip(n: nat)
    ensures DigitsValue(Digits(n)) == n
  {
    if n >= 10 {
      DigitsRoundTrip(n / 10);
      var s := Digits(n);
      assert s[..|s| - 1] == Digits(n / 10);
    }
  }

  /** Parsing what Decimal prints gives the number back. */
  lemma DecimalRoundTrip(n: int)
    ensures ParseDecimal(Decimal(n)) == n
  {
    if n < 0 {
      DigitsRoundTrip(-n);
      assert Decimal(n)[1..] == Digits(-n);
    } else {
      DigitsRoundTrip(n);
    }
  }

  /** Distinct numbers print differently. */
  lemma DecimalInjective(a: int, b: int)
    requires Decimal(a) == Decimal(b)
    ensures a == b
  {
    DecimalRoundTrip(a);
    DecimalRoundTrip(b);
  }

  /** A non-negative number prints as digits only. */
  lemma DecimalDigitsOnly(n: int)
    requires n >= 0
    ensures forall i :: 0 <= i < |Decimal(n)| ==> IsDigit(Decimal(n)[i])
  {
  }

  // ASCII case mapping.  The only strings the service compares ignoring case
  // are tokens of ASCII hex digits, and no character outside ASCII upper- or
  // lower-cases to an ASCII letter or digit of that kind, so the ASCII part of
  // Character.toUpperCase / toLowerCase decides every comparison it makes.

  function UpperChar(c: char): char
  {
    if 'a' <= c <= 'z' then (c as int - 32) as char else c
  }

  function LowerChar(c: char): char
  {
    if 'A' <= c <= 'Z' then (c as int + 32) as char else c
  }

  function Upper(s: string): (r: string)
    ensures |r| == |s| && forall i :: 0 <= i < |s| ==> r[i] == UpperChar(s[i])
  {
    seq(|s|, i requires 0 <= i < |s| => UpperChar(s[i]))
  }

  function Lower(s: string): (r: string)
    ensures |r| == |s| && forall i :: 0 <= i < |s| ==> r[i] == LowerChar(s[i])
  {
    seq(|s|, i requires 0 <= i < |s| => LowerChar(s[i]))
  }

  /** String.regionMatches(ignoreCase = true) on one pair of characters. */
  predicate CharEqualsIgnoreCase(a: char, b: char)
  {
    a == b || UpperChar(a) == UpperChar(b) || LowerChar(UpperChar(a)) == LowerChar(UpperChar(b))
  }

  /** String.equalsIgnoreCase. */
  predicate EqualsIgnoreCase(a: string, b: string)
  {
    |a| == |b| && forall i :: 0 <= i < |a| ==> CharEqualsIgnoreCase(a[i], b[i])
  }

  /** Ignoring case, a string of lowercase letters and digits equals `b` exactly when `b` lower-cases to it. */
  lemma EqualsIgnoreCaseLower(a: string, b: string)
    requires forall i :: 0 <= i < |a| ==> IsDigit(a[i]) || 'a' <= a[i] <= 'z'
    ensures EqualsIgnoreCase(a, b) <==> Lower(b) == a
  {
    if EqualsIgnoreCase(a, b) {
      assert forall i :: 0 <= i < |a| ==> Lower(b)[i] == a[i];
    }
  }

  // UTF-8 (RFC 3629): one to four bytes per Unicode scalar value.

  function Utf8Char(c: char): (r: seq<Uint8>)
    ensures 1 <= |r| <= 4
  {
    var v := c as int;
    if v < 0x80 then [v]
    else if v < 0x800 then [0xC0 + v / 0x40, 0x80 + v % 0x40]
    else if v < 0x1_0000 then [0xE0 + v / 0x1000, 0x80 + v / 0x40 % 0x40, 0x80 + v % 0x40]
    else [0xF0 + v / 0x4_0000, 0x80 + v / 0x1000 % 0x40, 0x80 + v / 0x40 % 0x40, 0x80 + v % 0x40]
  }

  /** String.getBytes(StandardCharsets.UTF_8). */
  function Utf8Encode(s: string): (r: seq<Uint8>)
    ensures |r| >= |s|
  {
    if s == [] then [] else Utf8Encode(s[..|s| - 1]) + Utf8Char(s[|s| - 1])
  }

  /** The number of bytes of the encoded character a lead byte announces. */
  function Utf8Width(lead: Uint8): (n: nat)
    ensures 1 <= n <= 4
  {
    if lead < 0x80 then 1 else if lead < 0xE0 then 2 else if lead < 0xF0 then 3 else 4
  }

  /** The code point carried by the bytes of one encoded character. */
  function Utf8Value(b: seq<Uint8>): int
    requires 1 <= |b| <= 4
  {
    var b0 := b[0] as int;
    if |b| == 1 then b0
    else if |b| == 2 then (b0 - 0xC0) * 0x40 + (b[1] as int - 0x80)
    else if |b| == 3 then (b0 - 0xE0) * 0x1000 + (b[1] as int - 0x80) * 0x40 + (b[2] as int - 0x80)
    else (b0 - 0xF0) * 0x4_0000 + (b[1] as int - 0x80) * 0x1000 + (b[2] as int - 0x80) * 0x40 + (b[3] as int - 0x80)
  }

  predicate IsScalarValue(v: int)
  {
    0 <= v < 0xD800 || 0xE000 <= v < 0x11_0000
  }

  /** A UTF-8 decoder; None for input it cannot decode. */
  function Utf8Decode(b: seq<Uint8>): Option<string>
    decreases |b|
  {
    if b == [] then Some([])
    else
      var n := Utf8Width(b[0]);
      if |b| < n || !IsScalarValue(Utf8Value(b[..n])) then None
      else match Utf8Decode(b[n..]) {
        case None => None
        case Some(t) => Some([Utf8Value(b[..n]) as char] + t)
      }
  }

  lemma Utf8CharDecodes(c: char)
    ensures Utf8Width(Utf8Char(c)[0]) == |Utf8Char(c)|
    ensures Utf8Value(Utf8Char(c)) == c as int
  {
    var v := c as int;
    if 0x800 <= v < 0x1_0000 {
      assert v / 0x40 == v / 0x1000 * 0x40 + v / 0x40 % 0x40;
    } else if v >= 0x1_0000 {
      assert v / 0x40 == v / 0x1000 * 0x40 + v / 0x40 % 0x40;
      assert v / 0x1000 == v / 0x4_0000 * 0x40 + v / 0x1000 % 0x40;
    }
  }

  lemma {:induction false} Utf8EncodeCons(s: string)
    requires s != []
    ensures Utf8Encode(s) == Utf8Char(s[0]) + Utf8Encode(s[1..])
  {
    if |s| > 1 {
      Utf8EncodeCons(s[..|s| - 1]);
      assert s[..|s| - 1][1..] == s[1..][..|s[1..]| - 1];
    } else {
      assert s[..|s| - 1] == [] && s[1..] == [];
    }
  }

  /** Decoding the UTF-8 encoding of a string gives the string back. */
  lemma {:induction false} Utf8RoundTrip(s: string)
    ensures Utf8Decode(Utf8Encode(s)) == Some(s)
    decreases |s|
  {
    if s != [] {
      Utf8EncodeCons(s);
      var b := Utf8Encode(s);
      var c := Utf8Char(s[0]);
      Utf8CharDecodes(s[0]);
      assert b[0] == c[0] && b[..|c|] == c && b[|c|..] == Utf8Encode(s[1..]);
      Utf8RoundTrip(s[1..]);
      assert s == [s[0]] + s[1..];
    }
  }

  /** Distinct strings have distinct encodings. */
  lemma Utf8Injective(a: string, b: string)
    requires Utf8Encode(a) == Utf8Encode(b)
    ensures a == b
  {
    Utf8RoundTrip(a);
    Utf8RoundTrip(b);
  }
}
