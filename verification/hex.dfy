/**
  The `%02x` conversion of printf as `selfoss_getId` uses it to render an
  MD5 digest held in a `char digest[16]`, including what happens to a byte
  of 0x80 or more when `char` is signed: it is promoted to a negative `int`
  and `%x` prints that int's 32-bit unsigned reading.
 */
module Hex {
  import opened CStrings

  predicate IsLowerHex(b: Byte) {
    (0x30 <= b <= 0x39) || (0x61 <= b <= 0x66)
  }

  predicate AllLowerHex(s: seq<Byte>) {
    forall i :: 0 <= i < |s| ==> IsLowerHex(s[i])
  }

  /** Lower-case hexadecimal text contains no NUL, so it is a C string. */
  lemma LowerHexNulFree(s: seq<Byte>)
    requires AllLowerHex(s)
    ensures NulFree(s)
  {
  }

  /** Value of a hexadecimal digit; bytes that are not one read as 0. */
  function DigitValue(b: Byte): (v: nat)
    ensures v < 16
  {
    if 0x30 <= b <= 0x39 then b as int - 0x30
    else if 0x61 <= b <= 0x66 then b as int - 0x61 + 10
    else 0
  }

  /** The lower-case ASCII digit printf emits for a value below 16. */
  function HexDigit(v: nat): (b: Byte)
    requires v < 16
    ensures IsLowerHex(b)
    ensures DigitValue(b) == v
  {
    if v < 10 then (0x30 + v) as Byte else (0x61 + v - 10) as Byte
  }

  /** Shortest hexadecimal rendering of `v`: no leading zeros, "0" for zero. */
  function HexOf(v: nat): (s: seq<Byte>)
    ensures 1 <= |s|
    decreases v
  {
    if v < 16 then [HexDigit(v)] else HexOf(v / 16) + [HexDigit(v % 16)]
  }

  /** `%02x`: the shortest rendering, padded on the left with '0' to two digits. */
  function Format02x(v: nat): (s: seq<Byte>)
    ensures 2 <= |s|
  {
    var d := HexOf(v);
    if |d| < 2 then [0x30] + d else d
  }

  /** Big-endian value of a hexadecimal digit string. */
  function ParseHex(s: seq<Byte>): nat
  {
    if s == [] then 0 else ParseHex(s[..|s| - 1]) * 16 + DigitValue(s[|s| - 1])
  }

  lemma {:induction false} HexOfRoundTrip(v: nat)
    ensures ParseHex(HexOf(v)) == v
    decreases v
  {
    if v >= 16 {
      var s := HexOf(v);
      assert s[..|s| - 1] == HexOf(v / 16);
      HexOfRoundTrip(v / 16);
    }
  }

  /** A leading '0' does not change the value of a digit string. */
  lemma {:induction false} LeadingZero(s: seq<Byte>)
    ensures ParseHex([0x30] + s) == ParseHex(s)
    decreases |s|
  {
    var t := [0x30 as Byte] + s;
    if s != [] {
      assert t[..|t| - 1] == [0x30] + s[..|s| - 1];
      LeadingZero(s[..|s| - 1]);
    } else {
      assert t[..|t| - 1] == [];
    }
  }

  /** Reading back what `%02x` printed gives the printed value. */
  lemma Format02xRoundTrip(v: nat)
    ensures ParseHex(Format02x(v)) == v
  {
    HexOfRoundTrip(v);
    if |HexOf(v)| < 2 {
      LeadingZero(HexOf(v));
    }
  }

  /** A value below 256 prints as exactly two digits: its high and low nibble. */
  lemma ByteFormat(b: nat)
    requires b < 256
    ensures Format02x(b) == [HexDigit(b / 16), HexDigit(b % 16)]
  {
    if b >= 16 {
      assert HexOf(b / 16) == [HexDigit(b / 16)];
    }
  }

  lemma DivMod16(q: nat, r: nat)
    requires r < 16
    ensures (q * 16 + r) / 16 == q
    ensures (q * 16 + r) % 16 == r
  {
  }

  /** Appending one digit `r` to the value `q` appends it to the rendering. */
  lemma HexOfAppendDigit(q: nat, r: nat)
    requires 1 <= q
    requires r < 16
    ensures HexOf(q * 16 + r) == HexOf(q) + [HexDigit(r)]
  {
    DivMod16(q, r);
  }

  /** Rendering `a` followed by a full byte `b` appends the two digits of `b`. */
  lemma HexOfAppendByte(a: nat, b: nat)
    requires 1 <= a
    requires b < 256
    ensures HexOf(a * 256 + b) == HexOf(a) + Format02x(b)
  {
    var hi, lo := b / 16, b % 16;
    var w := a * 16 + hi;
    assert a * 256 + b == w * 16 + lo by {
      assert b == hi * 16 + lo;
      assert w * 16 == a * 256 + hi * 16;
    }
    HexOfAppendDigit(a, hi);
    var hexW := HexOf(a) + [HexDigit(hi)];
    assert HexOf(w) == hexW;
    HexOfAppendDigit(w, lo);
    assert HexOf(a * 256 + b) == hexW + [HexDigit(lo)];
    ByteFormat(b);
    assert hexW + [HexDigit(lo)] == HexOf(a) + [HexDigit(hi), HexDigit(lo)];
  }

  function Pow16(n: nat): (p: nat)
    ensures 1 <= p
  {
    if n == 0 then 1 else 16 * Pow16(n - 1)
  }

  /** `n` hexadecimal digits 'f'. */
  function AllFDigits(n: nat): (s: seq<Byte>)
    ensures |s| == n
  {
    if n == 0 then [] else AllFDigits(n - 1) + [0x66]
  }

  /** A value whose n digits are all 15 renders as n letters 'f'. */
  lemma {:induction false} HexOfAllF(n: nat)
    requires 1 <= n
    ensures HexOf(Pow16(n) - 1) == AllFDigits(n)
  {
    if n > 1 {
      assert Pow16(n) - 1 == (Pow16(n - 1) - 1) * 16 + 15;
      HexOfAppendDigit(Pow16(n - 1) - 1, 15);
      HexOfAllF(n - 1);
    }
  }

  /** The six digits "ffffff" that a sign-extended byte carries in front. */
  const SignFill: seq<Byte> := AllFDigits(6)

  /** 0xFFFFFF, the three high bytes of a sign-extended char, renders as SignFill. */
  lemma HexOfSignFill()
    ensures HexOf(0xFF_FFFF) == SignFill
  {
    assert Pow16(6) - 1 == 0xFF_FFFF;
    HexOfAllF(6);
  }

  /**
    The value printf's `%x` reads for a `char` argument holding `b`: the
    char is promoted to `int` (negative for b >= 0x80 when char is signed)
    and reinterpreted as a 32-bit `unsigned int`.
   */
  function CharArg(b: Byte, signedChar: bool): (v: nat)
    ensures v < 0x1_0000_0000
    ensures v < 256 <==> !Widened(b, signedChar)
    ensures Widened(b, signedChar) ==> v == 0xFFFF_FF00 + b as int
    ensures !Widened(b, signedChar) ==> v == b as int
  {
    var promoted: int := if signedChar && b >= 0x80 then b as int - 256 else b as int;
    AsUnsigned32(promoted)
  }

  /** Two's-complement reading of a 32-bit `int` as an `unsigned int`. */
  function AsUnsigned32(x: int): (u: nat)
    requires -0x8000_0000 <= x < 0x8000_0000
    ensures u < 0x1_0000_0000
    ensures (u - x) % 0x1_0000_0000 == 0
  {
    if x < 0 then x + 0x1_0000_0000 else x
  }

  /** Whether this digest byte prints wider than two digits. */
  predicate Widened(b: Byte, signedChar: bool) {
    signedChar && b >= 0x80
  }

  /**
    `%02x` of a digest byte: its two digits, preceded by "ffffff" exactly
    when the byte is sign-extended.
   */
  lemma FormatCharArg(b: Byte, signedChar: bool)
    ensures Widened(b, signedChar) ==> Format02x(CharArg(b, signedChar)) == SignFill + Format02x(b as int)
    ensures !Widened(b, signedChar) ==> Format02x(CharArg(b, signedChar)) == Format02x(b as int)
    ensures |Format02x(CharArg(b, signedChar))| == if Widened(b, signedChar) then 8 else 2
  {
    var v := CharArg(b, signedChar);
    ByteFormat(b as int);
    if Widened(b, signedChar) {
      SignExtendedFormat(b);
      assert |SignFill| == 6;
    } else {
      assert v == b as int;
    }
  }

  lemma SignExtendedFormat(b: Byte)
    requires b >= 0x80
    ensures Format02x(CharArg(b, true)) == SignFill + Format02x(b as int)
  {
    var fill := Pow16(6) - 1;
    assert Pow16(6) == 0x100_0000;
    var v := CharArg(b, true);
    assert v == fill * 256 + b as int;
    HexOfAppendByte(fill, b as int);
    HexOfSignFill();
    assert HexOf(v) == SignFill + Format02x(b as int);
  }

  /** The sixteen `%02x` conversions of `selfoss_getId`, concatenated. */
  function RenderDigest(d: seq<Byte>, signedChar: bool): (s: seq<Byte>)
    ensures |s| >= 2 * |d|
  {
    if d == [] then [] else Format02x(CharArg(d[0], signedChar)) + RenderDigest(d[1..], signedChar)
  }

  function WideCount(d: seq<Byte>, signedChar: bool): (n: nat)
    ensures n <= |d|
  {
    if d == [] then 0 else (if Widened(d[0], signedChar) then 1 else 0) + WideCount(d[1..], signedChar)
  }

  lemma {:induction false} WideCountZero(d: seq<Byte>, signedChar: bool)
    ensures WideCount(d, signedChar) == 0 <==> forall i :: 0 <= i < |d| ==> !Widened(d[i], signedChar)
  {
    if d != [] {
      WideCountZero(d[1..], signedChar);
      assert forall i :: 1 <= i < |d| ==> d[i] == d[1..][i - 1];
    }
  }

  /** Each byte prints as two digits, plus six more for every sign-extended one. */
  lemma {:induction false} RenderDigestLength(d: seq<Byte>, signedChar: bool)
    ensures |RenderDigest(d, signedChar)| == 2 * |d| + 6 * WideCount(d, signedChar)
  {
    if d != [] {
      FormatCharArg(d[0], signedChar);
      RenderDigestLength(d[1..], signedChar);
    }
  }

  lemma {:induction false} HexOfLowerHex(v: nat)
    ensures AllLowerHex(HexOf(v))
    decreases v
  {
    if v >= 16 {
      HexOfLowerHex(v / 16);
    }
  }

  /** Every byte of a rendered digest is a lower-case hexadecimal digit. */
  lemma {:induction false} RenderDigestLowerHex(d: seq<Byte>, signedChar: bool)
    ensures AllLowerHex(RenderDigest(d, signedChar))
  {
    if d != [] {
      HexOfLowerHex(CharArg(d[0], signedChar));
      RenderDigestLowerHex(d[1..], signedChar);
    }
  }

  /** Splits a digit string into two-digit groups and reads each as a byte. */
  function DecodePairs(s: seq<Byte>): (d: seq<Byte>)
    ensures |d| == |s| / 2
  {
    if |s| < 2 then [] else [(DigitValue(s[0]) * 16 + DigitValue(s[1])) as Byte] + DecodePairs(s[2..])
  }

  lemma PairOfByte(b: Byte)
    ensures (DigitValue(Format02x(b as int)[0]) * 16 + DigitValue(Format02x(b as int)[1])) as Byte == b
  {
    ByteFormat(b as int);
    var v := b as int;
    assert v / 16 * 16 + v % 16 == v;
  }

  /** The first two digits of a rendering whose first byte is not sign-extended. */
  lemma RenderDigestHead(d: seq<Byte>, signedChar: bool)
    requires d != [] && !Widened(d[0], signedChar)
    ensures |RenderDigest(d, signedChar)| >= 2
    ensures (DigitValue(RenderDigest(d, signedChar)[0]) * 16 + DigitValue(RenderDigest(d, signedChar)[1])) as Byte == d[0]
    ensures RenderDigest(d, signedChar)[2..] == RenderDigest(d[1..], signedChar)
  {
    var s := RenderDigest(d, signedChar);
    FormatCharArg(d[0], signedChar);
    PairOfByte(d[0]);
    assert s[..2] == Format02x(d[0] as int);
    assert s[0] == Format02x(d[0] as int)[0] && s[1] == Format02x(d[0] as int)[1];
  }

  /** Without sign extension the rendering reads back as the digest itself. */
  lemma {:induction false} RenderDigestRoundTrip(d: seq<Byte>, signedChar: bool)
    requires forall i :: 0 <= i < |d| ==> !Widened(d[i], signedChar)
    ensures DecodePairs(RenderDigest(d, signedChar)) == d
  {
    if d != [] {
      var s := RenderDigest(d, signedChar);
      RenderDigestHead(d, signedChar);
      assert forall i :: 0 <= i < |d[1..]| ==> d[1..][i] == d[i + 1];
      RenderDigestRoundTrip(d[1..], signedChar);
      assert DecodePairs(s) == [d[0]] + DecodePairs(s[2..]);
      assert [d[0]] + d[1..] == d;
    }
  }
}
