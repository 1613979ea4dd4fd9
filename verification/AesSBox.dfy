/** The S-box of FIPS 197, section 5.1.1: the multiplicative inverse in GF(2^8) followed by an
    affine map, and the proof that it is a permutation of the bytes. */
module AesSBox {
  import opened Gf256

  // ---- multiplication in GF(2^8) ----

  /** The product of b with the lowest n bits of a. */
  function MulBits(a: bv8, b: bv8, n: nat): bv8
    decreases n, a, b
  {
    if n == 0 then 0 else Xor(if a & 1 == 1 then b else 0, MulBits(a >> 1, XTime(b), n - 1))
  }

  function Mul(a: bv8, b: bv8): bv8 { MulBits(a, b, 8) }

  function Pow(x: bv8, n: nat): bv8
    decreases n, x
  {
    if n == 0 then 1 else Mul(x, Pow(x, n - 1))
  }

  /** x to the power 254: the multiplicative inverse, with {00} mapped to itself. */
  function Inverse(x: bv8): bv8 { Pow(x, 254) }

  function Affine(b: bv8): bv8 {
    b ^ b.RotateLeft(1) ^ b.RotateLeft(2) ^ b.RotateLeft(3) ^ b.RotateLeft(4) ^ 0x63
  }

  function InvAffine(b: bv8): bv8 {
    b.RotateLeft(1) ^ b.RotateLeft(3) ^ b.RotateLeft(6) ^ 0x05
  }

  function S(x: bv8): bv8 { Affine(Inverse(x)) }

  function Si(x: bv8): bv8 { Inverse(InvAffine(x)) }

  // ---- multiplication is bilinear ----

  lemma {:induction false} MulBitsRight(a: bv8, b: bv8, c: bv8, n: nat)
    ensures MulBits(a, Xor(b, c), n) == Xor(MulBits(a, b, n), MulBits(a, c, n))
    decreases n
  {
    hide Xor, XTime;
    XorZero(0);
    if n > 0 {
      XTimeXor(b, c);
      MulBitsRight(a >> 1, XTime(b), XTime(c), n - 1);
      Interchange(if a & 1 == 1 then b else 0, if a & 1 == 1 then c else 0,
                  MulBits(a >> 1, XTime(b), n - 1), MulBits(a >> 1, XTime(c), n - 1));
    }
  }

  lemma {:induction false} XorZero(a: bv8)
    ensures Xor(a, 0) == a && Xor(0, a) == a && Xor(a, a) == 0
  {
  }

  lemma {:induction false} ShiftXor(a: bv8, b: bv8)
    ensures Xor(a, b) >> 1 == Xor(a >> 1, b >> 1)
    ensures Xor(a, b) & 1 == 1 <==> (a & 1 == 1) != (b & 1 == 1)
  {
  }

  lemma {:induction false} MulBitsLeft(a: bv8, b: bv8, c: bv8, n: nat)
    ensures MulBits(Xor(a, b), c, n) == Xor(MulBits(a, c, n), MulBits(b, c, n))
    decreases n
  {
    hide Xor, XTime;
    XorZero(0);
    XorZero(c);
    if n > 0 {
      ShiftXor(a, b);
      MulBitsLeft(a >> 1, b >> 1, XTime(c), n - 1);
      Interchange(if a & 1 == 1 then c else 0, if b & 1 == 1 then c else 0,
                  MulBits(a >> 1, XTime(c), n - 1), MulBits(b >> 1, XTime(c), n - 1));
    }
  }

  lemma {:induction false} XTimeZero()
    ensures XTime(0) == 0
  {
  }

  lemma {:induction false} MulBitsXTime(a: bv8, b: bv8, n: nat)
    ensures MulBits(a, XTime(b), n) == XTime(MulBits(a, b, n))
    decreases n
  {
    hide Xor, XTime;
    XTimeZero();
    if n > 0 {
      MulBitsXTime(a >> 1, XTime(b), n - 1);
      XTimeXor(if a & 1 == 1 then b else 0, MulBits(a >> 1, XTime(b), n - 1));
    }
  }

  /** b or 0, by the lowest bit of a, without a branch. */
  function Term(a: bv8, b: bv8): bv8 { (a & 1) * b }

  lemma {:induction false} TermIsChoice(a: bv8, b: bv8)
    ensures Term(a, b) == if a & 1 == 1 then b else 0
  {
  }

  /** The product with the recursion of MulBits written out. */
  function FlatMul(a: bv8, b: bv8): bv8 {
    var a1, b1 := a >> 1, XTime(b);
    var a2, b2 := a1 >> 1, XTime(b1);
    var a3, b3 := a2 >> 1, XTime(b2);
    var a4, b4 := a3 >> 1, XTime(b3);
    var a5, b5 := a4 >> 1, XTime(b4);
    var a6, b6 := a5 >> 1, XTime(b5);
    var a7, b7 := a6 >> 1, XTime(b6);
    Xor(Term(a, b), Xor(Term(a1, b1), Xor(Term(a2, b2), Xor(Term(a3, b3),
        Xor(Term(a4, b4), Xor(Term(a5, b5), Xor(Term(a6, b6), Term(a7, b7))))))))
  }

  lemma {:induction false} MulBitsStep(a: bv8, b: bv8, n: nat)
    requires n > 0
    ensures MulBits(a, b, n) == Xor(Term(a, b), MulBits(a >> 1, XTime(b), n - 1))
  {
    hide Xor, XTime, Term;
    TermIsChoice(a, b);
  }

  lemma {:induction false} MulIsFlat(a: bv8, b: bv8)
    ensures Mul(a, b) == FlatMul(a, b)
  {
    hide Xor, XTime, Term, MulBits;
    var a1, b1 := a >> 1, XTime(b);
    var a2, b2 := a1 >> 1, XTime(b1);
    var a3, b3 := a2 >> 1, XTime(b2);
    var a4, b4 := a3 >> 1, XTime(b3);
    var a5, b5 := a4 >> 1, XTime(b4);
    var a6, b6 := a5 >> 1, XTime(b5);
    var a7, b7 := a6 >> 1, XTime(b6);
    MulBitsStep(a, b, 8);
    MulBitsStep(a1, b1, 7);
    MulBitsStep(a2, b2, 6);
    MulBitsStep(a3, b3, 5);
    MulBitsStep(a4, b4, 4);
    MulBitsStep(a5, b5, 3);
    MulBitsStep(a6, b6, 2);
    MulBitsStep(a7, b7, 1);
    NoBits(a7 >> 1, XTime(b7));
    XorZero(Term(a7, b7));
  }

  lemma {:induction false} NoBits(a: bv8, b: bv8)
    ensures MulBits(a, b, 0) == 0
  {
  }

  // ---- it is associative and commutative, with unit 1 ----

  lemma {:induction false} MulZero(a: bv8, n: nat)
    ensures MulBits(a, 0, n) == 0 && MulBits(0, a, n) == 0
    decreases n
  {
    hide Xor, XTime;
    XTimeZero();
    XorZero(0);
    assert 0 as bv8 >> 1 == 0;
    if n > 0 {
      MulZero(a >> 1, n - 1);
      MulZero(XTime(a), n - 1);
    }
  }

  /** XTime n times. */
  function XTimes(b: bv8, n: nat): bv8 {
    if n == 0 then b else XTime(XTimes(b, n - 1))
  }

  /** Shift right by one place n times. */
  function Drop(a: bv8, n: nat): bv8
    decreases n
  {
    if n == 0 then a else Drop(a >> 1, n - 1)
  }

  lemma {:induction false} LowBitAndRest(a: bv8)
    ensures a == Xor(if a & 1 == 1 then 1 else 0, XTime(a >> 1))
  {
  }

  lemma {:induction false} MulOne(b: bv8)
    ensures Mul(b, 1) == b && Mul(1, b) == b
  {
    hide Mul;
    MulIsFlat(b, 1);
    MulIsFlat(1, b);
    FlatMulOne(b);
  }

  lemma {:induction false} FlatMulOne(b: bv8)
    ensures FlatMul(b, 1) == b && FlatMul(1, b) == b && FlatMul(2, b) == XTime(b)
  {
  }

  /** Reading the bits of the right factor instead of the left one: the first n of them. */
  lemma {:induction false} MulByBitsOfRight(a: bv8, b: bv8, n: nat)
    ensures Mul(b, a) == Xor(MulBits(a, b, n), XTimes(Mul(b, Drop(a, n)), n))
    decreases n
  {
    hide Xor, XTime, Mul;
    if n == 0 {
      XorZero(Mul(b, a));
    } else {
      var low := if a & 1 == 1 then 1 else 0;
      var rest := a >> 1;
      LowBitAndRest(a);
      MulRight(b, low, XTime(rest));
      MulOne(b);
      MulZeroOf(b);
      MulXTimeRight(b, rest);
      MulByBitsOfRight(rest, b, n - 1);
      var tail := XTimes(Mul(b, Drop(a, n)), n - 1);
      XTimeXor(MulBits(rest, b, n - 1), tail);
      MulBitsXTime(rest, b, n - 1);
      XorAssociative(if a & 1 == 1 then b else 0, MulBits(rest, XTime(b), n - 1), XTime(tail));
    }
  }

  lemma {:induction false} MulRight(a: bv8, b: bv8, c: bv8)
    ensures Mul(a, Xor(b, c)) == Xor(Mul(a, b), Mul(a, c)) && Mul(Xor(b, c), a) == Xor(Mul(b, a), Mul(c, a))
  {
    hide Xor, MulBits;
    MulBitsRight(a, b, c, 8);
    MulBitsLeft(b, c, a, 8);
  }

  lemma {:induction false} MulZeroOf(a: bv8)
    ensures Mul(a, 0) == 0 && Mul(0, a) == 0
  {
    hide MulBits;
    MulZero(a, 8);
  }

  lemma {:induction false} MulXTimeRight(a: bv8, b: bv8)
    ensures Mul(a, XTime(b)) == XTime(Mul(a, b))
  {
    hide MulBits, XTime;
    MulBitsXTime(a, b, 8);
  }

  lemma {:induction false} DropAll(a: bv8)
    ensures Drop(a, 8) == 0
  {
  }

  lemma {:induction false} XTimesZero(n: nat)
    ensures XTimes(0, n) == 0
  {
    hide XTime;
    XTimeZero();
    if n > 0 {
      XTimesZero(n - 1);
    }
  }

  lemma {:induction false} MulCommutative(a: bv8, b: bv8)
    ensures Mul(a, b) == Mul(b, a)
  {
    hide Xor, XTime, MulBits, Drop, XTimes;
    MulByBitsOfRight(a, b, 8);
    DropAll(a);
    MulZeroOf(b);
    XTimesZero(8);
    XorZero(MulBits(a, b, 8));
  }

  lemma {:induction false} MulXTimeLeft(b: bv8, c: bv8)
    ensures Mul(XTime(b), c) == XTime(Mul(b, c))
  {
    hide Mul, XTime;
    MulCommutative(XTime(b), c);
    MulXTimeRight(c, b);
    MulCommutative(c, b);
  }

  lemma {:induction false} MulBitsAssociative(a: bv8, b: bv8, c: bv8, n: nat)
    ensures Mul(MulBits(a, b, n), c) == MulBits(a, Mul(b, c), n)
    decreases n
  {
    hide Xor, XTime, Mul;
    MulZeroOf(c);
    if n > 0 {
      MulBitsAssociative(a >> 1, XTime(b), c, n - 1);
      MulXTimeLeft(b, c);
      MulRight(c, if a & 1 == 1 then b else 0, MulBits(a >> 1, XTime(b), n - 1));
    }
  }

  lemma {:induction false} MulAssociative(a: bv8, b: bv8, c: bv8)
    ensures Mul(Mul(a, b), c) == Mul(a, Mul(b, c))
  {
    hide MulBits;
    MulBitsAssociative(a, b, c, 8);
  }

  // ---- powers ----

  lemma {:induction false} PowAdd(x: bv8, m: nat, n: nat)
    ensures Pow(x, m + n) == Mul(Pow(x, m), Pow(x, n))
    decreases m
  {
    hide Mul;
    if m == 0 {
      MulOne(Pow(x, n));
    } else {
      PowAdd(x, m - 1, n);
      MulAssociative(x, Pow(x, m - 1), Pow(x, n));
    }
  }

  lemma {:induction false} PowPow(x: bv8, m: nat, n: nat)
    ensures Pow(Pow(x, m), n) == Pow(x, m * n)
    decreases n
  {
    hide Mul;
    if n > 0 {
      PowPow(x, m, n - 1);
      PowAdd(x, m, m * (n - 1));
      assert m + m * (n - 1) == m * n;
    }
  }

  // ---- squaring eight times is the identity: it fixes {02} and respects sums and products ----

  function Square(x: bv8): bv8 { Mul(x, x) }

  function Squares(x: bv8, n: nat): bv8 {
    if n == 0 then x else Square(Squares(x, n - 1))
  }

  lemma {:induction false} SquareXor(a: bv8, b: bv8)
    ensures Square(Xor(a, b)) == Xor(Square(a), Square(b))
  {
    hide Xor, Mul;
    MulRight(Xor(a, b), a, b);
    MulRight(a, a, b);
    MulRight(b, a, b);
    MulCommutative(a, b);
    Interchange(Mul(a, a), Mul(a, b), Mul(a, b), Mul(b, b));
    XorAssociative(Mul(a, a), Mul(a, b), Xor(Mul(a, b), Mul(b, b)));
    XorAssociative(Mul(a, b), Mul(a, b), Mul(b, b));
    XorZero(Mul(a, b));
    XorZero(Mul(b, b));
  }

  lemma {:induction false} SquareMul(a: bv8, b: bv8)
    ensures Square(Mul(a, b)) == Mul(Square(a), Square(b))
  {
    hide Mul;
    MulAssociative(a, b, Mul(a, b));
    MulAssociative(b, a, b);
    MulCommutative(a, b);
    MulAssociative(a, b, b);
    MulAssociative(a, a, Mul(b, b));
  }

  lemma {:induction false} SquaresHom(a: bv8, b: bv8, n: nat)
    ensures Squares(Xor(a, b), n) == Xor(Squares(a, n), Squares(b, n))
    ensures Squares(Mul(a, b), n) == Mul(Squares(a, n), Squares(b, n))
  {
    hide Xor, Mul, Square;
    if n > 0 {
      SquaresHom(a, b, n - 1);
      SquareXor(Squares(a, n - 1), Squares(b, n - 1));
      SquareMul(Squares(a, n - 1), Squares(b, n - 1));
    }
  }

  lemma {:induction false} SquareValue(x: bv8, y: bv8)
    requires y == FlatMul(x, x)
    ensures Square(x) == y
  {
    hide Mul, FlatMul;
    MulIsFlat(x, x);
  }

  lemma {:induction false} SquaresOfTwo()
    ensures Squares(2, 8) == 2
  {
    hide Square;
    SquareValue(0x02, 0x04);
    SquareValue(0x04, 0x10);
    SquareValue(0x10, 0x1b);
    SquareValue(0x1b, 0x5e);
    SquareValue(0x5e, 0xe4);
    SquareValue(0xe4, 0x4d);
    SquareValue(0x4d, 0xfa);
    SquareValue(0xfa, 0x02);
  }

  lemma {:induction false} SquaresZero(n: nat)
    ensures Squares(0, n) == 0 && Squares(1, n) == 1
  {
    hide Mul;
    MulZeroOf(0);
    MulOne(1);
    if n > 0 {
      SquaresZero(n - 1);
    }
  }

  lemma {:induction false} XTimeIsMulByTwo(x: bv8)
    ensures XTime(x) == Mul(2, x)
  {
    hide Mul, FlatMul, XTime;
    MulIsFlat(2, x);
    FlatMulOne(x);
  }

  /** n is a bound on the number of bits of x still to be treated. */
  lemma {:induction false} SquaresFixes(x: bv8, n: nat)
    requires Drop(x, n) == 0
    ensures Squares(x, 8) == x
    decreases n
  {
    hide Xor, XTime, Mul, Squares;
    SquaresZero(8);
    if n > 0 {
      SquaresFixes(x >> 1, n - 1);
      LowBitAndRest(x);
      XTimeIsMulByTwo(x >> 1);
      SquaresHom(2, x >> 1, 8);
      SquaresOfTwo();
      SquaresHom(if x & 1 == 1 then 1 else 0, XTime(x >> 1), 8);
    }
  }

  lemma {:induction false} PowIsSquares(x: bv8)
    ensures Pow(x, 256) == Squares(x, 8)
  {
    hide Pow, Mul;
    PowOne(x);
    PowAdd(x, 1, 1);
    PowAdd(x, 2, 2);
    PowAdd(x, 4, 4);
    PowAdd(x, 8, 8);
    PowAdd(x, 16, 16);
    PowAdd(x, 32, 32);
    PowAdd(x, 64, 64);
    PowAdd(x, 128, 128);
    assert Squares(x, 1) == Pow(x, 2);
    assert Squares(x, 2) == Pow(x, 4);
    assert Squares(x, 3) == Pow(x, 8);
    assert Squares(x, 4) == Pow(x, 16);
    assert Squares(x, 5) == Pow(x, 32);
    assert Squares(x, 6) == Pow(x, 64);
    assert Squares(x, 7) == Pow(x, 128);
  }

  lemma {:induction false} PowOne(x: bv8)
    ensures Pow(x, 1) == x
  {
    hide Mul;
    MulOne(x);
  }

  lemma {:induction false} Pow256(x: bv8)
    ensures Pow(x, 256) == x
  {
    hide Pow, Squares;
    PowIsSquares(x);
    DropAll(x);
    SquaresFixes(x, 8);
  }

  // ---- the S-box is a permutation ----

  lemma {:induction false} InverseInverse(x: bv8)
    ensures Inverse(Inverse(x)) == x
  {
    hide Pow, Mul;
    PowPow(x, 254, 254);
    PowPow(x, 256, 252);
    PowAdd(x, 256 * 252, 4);
    Pow256(x);
    PowAdd(x, 252, 4);
  }

  /** Without zero divisors, x * y = x leaves only y = 1. */
  lemma {:induction false} NoZeroDivisors(x: bv8, y: bv8)
    requires Mul(x, y) == 0
    ensures x == 0 || y == 0
  {
    hide Mul;
    MulIsFlat(x, y);
  }

  /** Inverse is the inverse of section 4.2, and {00} is mapped to itself. */
  lemma {:induction false} InverseIsInverse(x: bv8)
    ensures x != 0 ==> Mul(x, Inverse(x)) == 1
    ensures Inverse(0) == 0
  {
    hide Pow, Mul, Xor;
    PowOne(x);
    PowAdd(x, 1, 254);
    PowAdd(x, 1, 255);
    Pow256(x);
    var e := Mul(x, Inverse(x));
    MulOne(x);
    MulRight(x, e, 1);
    XorZero(x);
    NoZeroDivisors(x, Xor(e, 1));
    XorCancel(e, 1);
    XorZero(1);
    PowOne(0);
    PowAdd(0, 1, 253);
    MulZeroOf(Pow(0, 253));
  }

  lemma {:induction false} AffineInverse(b: bv8)
    ensures InvAffine(Affine(b)) == b && Affine(InvAffine(b)) == b
  {
  }

  lemma {:induction false} SiUndoesS(x: bv8)
    ensures Si(S(x)) == x && S(Si(x)) == x
  {
    hide Inverse, Affine, InvAffine;
    AffineInverse(Inverse(x));
    InverseInverse(x);
    AffineInverse(x);
    InverseInverse(InvAffine(x));
  }

  lemma {:induction false} InverseUnique(x: bv8, y: bv8)
    requires Mul(x, y) == 1
    ensures Inverse(x) == y
  {
    hide Inverse, Mul;
    MulZeroOf(y);
    InverseIsInverse(x);
    MulCommutative(x, Inverse(x));
    MulAssociative(Inverse(x), x, y);
    MulOne(y);
    MulOne(Inverse(x));
  }

  /** The example worked out in section 5.1.1: {53} is substituted by {ed}. */
  lemma {:induction false} SBoxExample()
    ensures S(0x00) == 0x63 && S(0x53) == 0xed
  {
    hide Inverse, Mul;
    InverseIsInverse(0);
    MulIsFlat(0x53, 0xca);
    InverseUnique(0x53, 0xca);
  }
}
