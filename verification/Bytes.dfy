/** Bytes as numbers, and the big-endian fields made of them. */
module Bytes {
  type byte = x: int | 0 <= x < 256

  const TWO16 := 0x1_0000
  const TWO32 := 0x1_0000_0000
  const TWO64 := 0x1_0000_0000_0000_0000

  /** The low n bytes of x, most significant first. */
  function Be(x: nat, n: nat): (s: seq<byte>)
    ensures |s| == n
    decreases n, x
  {
    if n == 0 then [] else Be(x / 256, n - 1) + [x % 256]
  }

  /** The number whose big-endian bytes are s. */
  function Number(s: seq<byte>): nat
    decreases |s|
  {
    if |s| == 0 then 0 else Number(s[..|s| - 1]) * 256 + s[|s| - 1]
  }

  function Pow256(n: nat): (p: nat)
    ensures p >= 1
    decreases n, 0
  {
    if n == 0 then 1 else 256 * Pow256(n - 1)
  }

  lemma {:induction false} NumberOfBe(x: nat, n: nat)
    ensures Number(Be(x, n)) == x % Pow256(n)
    decreases n
  {
    if n == 0 {
    } else {
      NumberOfBe(x / 256, n - 1);
      assert Be(x, n)[..n - 1] == Be(x / 256, n - 1);
      SplitModulus(x, Pow256(n - 1));
    }
  }

  lemma {:induction false} SplitModulus(x: nat, m: nat)
    requires m >= 1
    ensures x % (256 * m) == (x / 256 % m) * 256 + x % 256
  {
    var q, r := x / 256 / m, x / 256 % m;
    assert x / 256 == q * m + r;
    assert x == (256 * m) * q + (r * 256 + x % 256) by {
      assert (256 * m) * q == 256 * (q * m);
    }
    assert r * 256 + x % 256 < 256 * m;
    ModulusIs(x, 256 * m, q, r * 256 + x % 256);
  }

  lemma {:induction false} ModulusIs(x: nat, m: nat, q: nat, r: nat)
    requires m >= 1 && x == m * q + r && r < m
    ensures x % m == r
  {
    var d := x / m - q;
    assert m * d == r - x % m;
    if d != 0 {
      Multiple(m, d);
    }
  }

  lemma {:induction false} Multiple(m: int, d: int)
    requires m >= 1 && d != 0
    ensures m * d >= m || m * d <= 0 - m
  {
    if d > 0 {
      assert m * (d - 1) >= 0;
    } else {
      assert m * (0 - d - 1) >= 0;
      assert m * (0 - d - 1) == 0 - m * d - m;
    }
  }

  lemma {:induction false} BeOfNumber(s: seq<byte>)
    ensures Number(s) < Pow256(|s|)
    ensures Be(Number(s), |s|) == s
    decreases |s|
  {
    if |s| > 0 {
      var h := s[..|s| - 1];
      BeOfNumber(h);
      assert Number(s) / 256 == Number(h) && Number(s) % 256 == s[|s| - 1];
    }
  }

  lemma {:induction false} FieldSizes()
    ensures Pow256(1) == 256 && Pow256(2) == TWO16 && Pow256(4) == TWO32 && Pow256(8) == TWO64
  {
    assert Pow256(3) == 0x100_0000;
    assert Pow256(5) == 256 * TWO32;
    assert Pow256(6) == TWO16 * TWO32;
    assert Pow256(7) == 256 * TWO16 * TWO32;
  }

  /** Reading a field back, when the value fits it. */
  lemma {:induction false} FieldRoundTrip(x: nat, n: nat)
    requires x < Pow256(n)
    ensures Number(Be(x, n)) == x
  {
    hide Pow256, Be, Number;
    NumberOfBe(x, n);
    SmallModulus(x, Pow256(n));
  }

  lemma {:induction false} SmallModulus(x: nat, m: nat)
    requires x < m
    ensures x % m == x
  {
  }

  // ---- bytes as bit vectors ----

  /** The n low binary digits of x, most significant first. */
  function Digits(x: nat, n: nat): (s: seq<bool>)
    ensures |s| == n
    decreases n, x
  {
    if n == 0 then [] else Digits(x / 2, n - 1) + [x % 2 == 1]
  }

  function ValueOf(s: seq<bool>): nat
    decreases |s|, 0
  {
    if |s| == 0 then 0 else ValueOf(s[..|s| - 1]) * 2 + (if s[|s| - 1] then 1 else 0)
  }

  function Pow2(n: nat): (p: nat)
    ensures p >= 1
    decreases n, 0
  {
    if n == 0 then 1 else 2 * Pow2(n - 1)
  }

  lemma {:induction false} ValueOfDigits(x: nat, n: nat)
    requires x < Pow2(n)
    ensures ValueOf(Digits(x, n)) == x
    decreases n
  {
    if n > 0 {
      ValueOfDigits(x / 2, n - 1);
      assert Digits(x, n)[..n - 1] == Digits(x / 2, n - 1);
    }
  }

  lemma {:induction false} DigitsOfValue(s: seq<bool>)
    ensures ValueOf(s) < Pow2(|s|)
    ensures Digits(ValueOf(s), |s|) == s
    decreases |s|
  {
    if |s| > 0 {
      var h := s[..|s| - 1];
      DigitsOfValue(h);
      assert ValueOf(s) / 2 == ValueOf(h) && (ValueOf(s) % 2 == 1) == s[|s| - 1];
    }
  }

  lemma {:induction false} EightDigits()
    ensures Pow2(8) == 256
  {
    assert Pow2(4) == 16;
  }

  function Flag(c: bool, v: bv8): bv8 { if c then v else 0 }

  function Vector(d: seq<bool>): bv8
    requires |d| == 8
  {
    Flag(d[0], 0x80) | Flag(d[1], 0x40) | Flag(d[2], 0x20) | Flag(d[3], 0x10) |
    Flag(d[4], 0x08) | Flag(d[5], 0x04) | Flag(d[6], 0x02) | Flag(d[7], 0x01)
  }

  function BitsOf(v: bv8): seq<bool> {
    [v & 0x80 != 0, v & 0x40 != 0, v & 0x20 != 0, v & 0x10 != 0, v & 0x08 != 0, v & 0x04 != 0, v & 0x02 != 0, v & 0x01 != 0]
  }

  /** The bit vector of a byte, bit by bit. */
  function ToBits(b: byte): bv8 { Vector(Digits(b, 8)) }

  function FromBits(v: bv8): byte {
    DigitsOfValue(BitsOf(v));
    EightDigits();
    ValueOf(BitsOf(v))
  }

  lemma {:induction false} BitsOfVector(d: seq<bool>)
    requires |d| == 8
    ensures BitsOf(Vector(d)) == d
  {
  }

  lemma {:induction false} VectorOfBits(v: bv8)
    ensures Vector(BitsOf(v)) == v
  {
  }

  lemma {:induction false} FromBitsOfToBits(b: byte)
    ensures FromBits(ToBits(b)) == b
  {
    hide Vector, BitsOf;
    BitsOfVector(Digits(b, 8));
    EightDigits();
    ValueOfDigits(b, 8);
  }

  lemma {:induction false} ToBitsOfFromBits(v: bv8)
    ensures ToBits(FromBits(v)) == v
  {
    hide Vector, BitsOf;
    assert |BitsOf(v)| == 8 by { BitsCount(v); }
    DigitsOfValue(BitsOf(v));
    VectorOfBits(v);
  }

  lemma {:induction false} BitsCount(v: bv8)
    ensures |BitsOf(v)| == 8
  {
  }

  function XorBits(a: bv8, b: bv8): bv8 { a ^ b }

  function XorByte(a: byte, b: byte): byte { FromBits(XorBits(ToBits(a), ToBits(b))) }

  lemma {:induction false} XorByteZero(a: byte)
    ensures XorByte(0, a) == a
  {
    hide ToBits, FromBits, XorBits;
    ZeroBits();
    XorZero(ToBits(a));
    FromBitsOfToBits(a);
  }

  lemma {:induction false} ZeroBits()
    ensures ToBits(0) == 0
  {
    assert Digits(0, 4) == [false, false, false, false];
    assert Digits(0, 8) == [false, false, false, false, false, false, false, false];
  }

  lemma {:induction false} XorZero(v: bv8)
    ensures XorBits(0, v) == v
  {
  }

  // ---- binary digits ----

  lemma {:induction false} EightDigitsOf(b: byte)
    ensures var d := Digits(b, 8);
      (d[0] <==> b / 128 % 2 == 1) && (d[1] <==> b / 64 % 2 == 1) && (d[2] <==> b / 32 % 2 == 1) && (d[3] <==> b / 16 % 2 == 1) &&
      (d[4] <==> b / 8 % 2 == 1) && (d[5] <==> b / 4 % 2 == 1) && (d[6] <==> b / 2 % 2 == 1) && (d[7] <==> b % 2 == 1)
  {
    DigitAt(b, 8, 0);
    DigitAt(b, 8, 1);
    DigitAt(b, 8, 2);
    DigitAt(b, 8, 3);
    DigitAt(b, 8, 4);
    DigitAt(b, 8, 5);
    DigitAt(b, 8, 6);
    DigitAt(b, 8, 7);
    assert Pow2(3) == 8 && Pow2(7) == 128;
  }

  lemma {:induction false} HalfTwice(x: nat, m: nat)
    requires m >= 1
    ensures x / 2 / m == x / (2 * m)
  {
    var q := x / 2 / m;
    var r := x / 2 - m * q;
    assert 0 <= r < m;
    assert x == 2 * (m * q) + 2 * r + x % 2;
    assert (2 * m) * q == 2 * (m * q);
    ModulusIs(x, 2 * m, q, 2 * r + x % 2);
    assert (2 * m) * (x / (2 * m) - q) == 0;
  }

  lemma {:induction false} DigitAt(x: nat, n: nat, k: nat)
    requires k < n
    ensures Digits(x, n)[k] <==> x / Pow2(n - 1 - k) % 2 == 1
    decreases n
  {
    if k < n - 1 {
      DigitAt(x / 2, n - 1, k);
      HalfTwice(x, Pow2(n - 2 - k));
    } else {
      assert Pow2(0) == 1;
    }
  }

  /** The bit vector of a byte has the bits of the number. */
  lemma {:induction false} BitsOfNumber(b: byte)
    ensures var v := ToBits(b);
      (v & 0x80 != 0 <==> b / 128 % 2 == 1) && (v & 0x40 != 0 <==> b / 64 % 2 == 1) && (v & 0x20 != 0 <==> b / 32 % 2 == 1) &&
      (v & 0x10 != 0 <==> b / 16 % 2 == 1) && (v & 0x08 != 0 <==> b / 8 % 2 == 1) && (v & 0x04 != 0 <==> b / 4 % 2 == 1) &&
      (v & 0x02 != 0 <==> b / 2 % 2 == 1) && (v & 0x01 != 0 <==> b % 2 == 1)
  {
    hide Vector;
    EightDigitsOf(b);
    var v := ToBits(b);
    BitsOfVector(Digits(b, 8));
    assert BitsOf(v)[0] == (v & 0x80 != 0) && BitsOf(v)[1] == (v & 0x40 != 0) && BitsOf(v)[2] == (v & 0x20 != 0) && BitsOf(v)[3] == (v & 0x10 != 0);
    assert BitsOf(v)[4] == (v & 0x08 != 0) && BitsOf(v)[5] == (v & 0x04 != 0) && BitsOf(v)[6] == (v & 0x02 != 0) && BitsOf(v)[7] == (v & 0x01 != 0);
  }

  /** A bit of the XOR is set if it is set in one of the two bytes. */
  lemma {:induction false} XorByteBits(a: byte, b: byte)
    ensures ToBits(XorByte(a, b)) == ToBits(a) ^ ToBits(b)
  {
    hide ToBits, FromBits;
    ToBitsOfFromBits(ToBits(a) ^ ToBits(b));
  }
}
