/** Arithmetic of GF(2^8), section 4 of FIPS 197, as far as the cipher needs it:
    addition, and multiplication by the constants of MixColumns and of its inverse. */
module Gf256 {

  /** Addition in GF(2^8) (section 4.1). */
  function Xor(a: bv8, b: bv8): bv8 { a ^ b }

  function Sum4(a: bv8, b: bv8, c: bv8, d: bv8): bv8 { Xor(Xor(a, b), Xor(c, d)) }

  /** Multiplication by {02}: shift left and reduce by the polynomial {01}{1b} (section 4.2.1). */
  function XTime(b: bv8): bv8 {
    (b << 1) ^ ((b >> 7) * 0x1b)
  }

  function Mul4(b: bv8): bv8 { XTime(XTime(b)) }

  function Mul8(b: bv8): bv8 { XTime(XTime(XTime(b))) }

  function Mul3(b: bv8): bv8 { Xor(XTime(b), b) }

  function Mul9(b: bv8): bv8 { Xor(Mul8(b), b) }

  function MulB(b: bv8): bv8 { Xor(Mul8(b), Xor(XTime(b), b)) }

  function MulD(b: bv8): bv8 { Xor(Mul8(b), Xor(Mul4(b), b)) }

  function MulE(b: bv8): bv8 { Xor(Mul8(b), Xor(Mul4(b), XTime(b))) }

  /** One column of the state: four bytes, row 0 first. */
  datatype Column = Column(b0: bv8, b1: bv8, b2: bv8, b3: bv8)

  function XorColumn(x: Column, y: Column): Column {
    Column(Xor(x.b0, y.b0), Xor(x.b1, y.b1), Xor(x.b2, y.b2), Xor(x.b3, y.b3))
  }

  /** Section 5.1.3: the column times the fixed polynomial {03}x^3 + {01}x^2 + {01}x + {02}. */
  function MixColumn(c: Column): Column {
    Column(Sum4(XTime(c.b0), Mul3(c.b1), c.b2, c.b3),
           Sum4(c.b0, XTime(c.b1), Mul3(c.b2), c.b3),
           Sum4(c.b0, c.b1, XTime(c.b2), Mul3(c.b3)),
           Sum4(Mul3(c.b0), c.b1, c.b2, XTime(c.b3)))
  }

  /** Section 5.3.3: the column times {0b}x^3 + {0d}x^2 + {09}x + {0e}. */
  function InvMixColumn(c: Column): Column {
    Column(Sum4(MulE(c.b0), MulB(c.b1), MulD(c.b2), Mul9(c.b3)),
           Sum4(Mul9(c.b0), MulE(c.b1), MulB(c.b2), MulD(c.b3)),
           Sum4(MulD(c.b0), Mul9(c.b1), MulE(c.b2), MulB(c.b3)),
           Sum4(MulB(c.b0), MulD(c.b1), Mul9(c.b2), MulE(c.b3)))
  }

  // ---- addition is a group operation, with every element its own inverse ----

  lemma {:induction false} XorAssociative(a: bv8, b: bv8, c: bv8)
    ensures Xor(Xor(a, b), c) == Xor(a, Xor(b, c))
  {
  }

  lemma {:induction false} XorCommutative(a: bv8, b: bv8)
    ensures Xor(a, b) == Xor(b, a)
  {
  }

  lemma {:induction false} Interchange(a: bv8, b: bv8, c: bv8, d: bv8)
    ensures Xor(Xor(a, b), Xor(c, d)) == Xor(Xor(a, c), Xor(b, d))
  {
    hide Xor;
    XorAssociative(a, b, Xor(c, d));
    XorAssociative(b, c, d);
    XorCommutative(b, c);
    XorAssociative(c, b, d);
    XorAssociative(a, c, Xor(b, d));
  }

  lemma {:induction false} XorCancel(a: bv8, b: bv8)
    ensures Xor(Xor(a, b), b) == a && Xor(a, 0) == a
  {
  }

  lemma {:induction false} Sum4Xor(a: Column, b: Column)
    ensures Sum4(Xor(a.b0, b.b0), Xor(a.b1, b.b1), Xor(a.b2, b.b2), Xor(a.b3, b.b3))
         == Xor(Sum4(a.b0, a.b1, a.b2, a.b3), Sum4(b.b0, b.b1, b.b2, b.b3))
  {
    hide Xor;
    Interchange(a.b0, b.b0, a.b1, b.b1);
    Interchange(a.b2, b.b2, a.b3, b.b3);
    Interchange(Xor(a.b0, a.b1), Xor(b.b0, b.b1), Xor(a.b2, a.b3), Xor(b.b2, b.b3));
  }

  // ---- multiplication by a constant is linear ----

  lemma {:induction false} XTimeXor(a: bv8, b: bv8)
    ensures XTime(Xor(a, b)) == Xor(XTime(a), XTime(b))
  {
  }
  lemma {:induction false} Mul4Xor(a: bv8, b: bv8)
    ensures Mul4(Xor(a, b)) == Xor(Mul4(a), Mul4(b))
  {
    hide XTime, Xor;
    XTimeXor(a, b);
    XTimeXor(XTime(a), XTime(b));
  }

  lemma {:induction false} Mul8Xor(a: bv8, b: bv8)
    ensures Mul8(Xor(a, b)) == Xor(Mul8(a), Mul8(b))
  {
    hide XTime, Xor;
    XTimeXor(a, b);
    XTimeXor(XTime(a), XTime(b));
    XTimeXor(XTime(XTime(a)), XTime(XTime(b)));
  }

  lemma {:induction false} MulsXor(a: bv8, b: bv8)
    ensures XTime(Xor(a, b)) == Xor(XTime(a), XTime(b))
    ensures Mul3(Xor(a, b)) == Xor(Mul3(a), Mul3(b))
    ensures Mul9(Xor(a, b)) == Xor(Mul9(a), Mul9(b))
    ensures MulB(Xor(a, b)) == Xor(MulB(a), MulB(b))
    ensures MulD(Xor(a, b)) == Xor(MulD(a), MulD(b))
    ensures MulE(Xor(a, b)) == Xor(MulE(a), MulE(b))
  {
    hide XTime, Mul4, Mul8, Xor;
    XTimeXor(a, b);
    Mul4Xor(a, b);
    Mul8Xor(a, b);
    Interchange(XTime(a), XTime(b), a, b);
    Interchange(Mul4(a), Mul4(b), a, b);
    Interchange(Mul4(a), Mul4(b), XTime(a), XTime(b));
    Interchange(Mul8(a), Mul8(b), a, b);
    Interchange(Mul8(a), Mul8(b), Xor(XTime(a), a), Xor(XTime(b), b));
    Interchange(Mul8(a), Mul8(b), Xor(Mul4(a), a), Xor(Mul4(b), b));
    Interchange(Mul8(a), Mul8(b), Xor(Mul4(a), XTime(a)), Xor(Mul4(b), XTime(b)));
  }

  lemma {:induction false} InvMixColumnXor(x: Column, y: Column)
    ensures InvMixColumn(XorColumn(x, y)) == XorColumn(InvMixColumn(x), InvMixColumn(y))
  {
    hide XTime, Mul9, MulB, MulD, MulE, Xor, Sum4;
    MulsXor(x.b0, y.b0);
    MulsXor(x.b1, y.b1);
    MulsXor(x.b2, y.b2);
    MulsXor(x.b3, y.b3);
    Sum4Xor(Column(MulE(x.b0), MulB(x.b1), MulD(x.b2), Mul9(x.b3)), Column(MulE(y.b0), MulB(y.b1), MulD(y.b2), Mul9(y.b3)));
    Sum4Xor(Column(Mul9(x.b0), MulE(x.b1), MulB(x.b2), MulD(x.b3)), Column(Mul9(y.b0), MulE(y.b1), MulB(y.b2), MulD(y.b3)));
    Sum4Xor(Column(MulD(x.b0), Mul9(x.b1), MulE(x.b2), MulB(x.b3)), Column(MulD(y.b0), Mul9(y.b1), MulE(y.b2), MulB(y.b3)));
    Sum4Xor(Column(MulB(x.b0), MulD(x.b1), Mul9(x.b2), MulE(x.b3)), Column(MulB(y.b0), MulD(y.b1), Mul9(y.b2), MulE(y.b3)));
  }

  // ---- the two column transformations are inverse to each other ----

  lemma {:induction false} InverseDiagonal(x: bv8)
    ensures Sum4(MulE(XTime(x)), MulB(x), MulD(x), Mul9(Mul3(x))) == x
    ensures Sum4(XTime(MulE(x)), Mul3(Mul9(x)), MulD(x), MulB(x)) == x
  {
  }

  lemma {:induction false} InverseOff1(x: bv8)
    ensures Sum4(MulE(Mul3(x)), MulB(XTime(x)), MulD(x), Mul9(x)) == 0
    ensures Sum4(XTime(MulB(x)), Mul3(MulE(x)), Mul9(x), MulD(x)) == 0
  {
  }

  lemma {:induction false} InverseOff2(x: bv8)
    ensures Sum4(MulE(x), MulB(Mul3(x)), MulD(XTime(x)), Mul9(x)) == 0
    ensures Sum4(XTime(MulD(x)), Mul3(MulB(x)), MulE(x), Mul9(x)) == 0
  {
  }

  lemma {:induction false} InverseOff3(x: bv8)
    ensures Sum4(MulE(x), MulB(x), MulD(Mul3(x)), Mul9(XTime(x))) == 0
    ensures Sum4(XTime(Mul9(x)), Mul3(MulD(x)), MulB(x), MulE(x)) == 0
  {
  }

  function SumColumn(c: Column): bv8 { Sum4(c.b0, c.b1, c.b2, c.b3) }

  /** Adding up four columns row by row and then along, or along and then row by row. */
  lemma {:induction false} Transpose(a: Column, b: Column, c: Column, d: Column)
    ensures Sum4(SumColumn(a), SumColumn(b), SumColumn(c), SumColumn(d))
         == Sum4(Sum4(a.b0, b.b0, c.b0, d.b0), Sum4(a.b1, b.b1, c.b1, d.b1),
                 Sum4(a.b2, b.b2, c.b2, d.b2), Sum4(a.b3, b.b3, c.b3, d.b3))
  {
    hide Xor;
    Sum4Xor(a, b);
    Sum4Xor(c, d);
    Sum4Xor(XorColumn(a, b), XorColumn(c, d));
  }

  lemma {:induction false} MulsSum4(c: Column)
    ensures XTime(SumColumn(c)) == Sum4(XTime(c.b0), XTime(c.b1), XTime(c.b2), XTime(c.b3))
    ensures Mul3(SumColumn(c)) == Sum4(Mul3(c.b0), Mul3(c.b1), Mul3(c.b2), Mul3(c.b3))
    ensures Mul9(SumColumn(c)) == Sum4(Mul9(c.b0), Mul9(c.b1), Mul9(c.b2), Mul9(c.b3))
    ensures MulB(SumColumn(c)) == Sum4(MulB(c.b0), MulB(c.b1), MulB(c.b2), MulB(c.b3))
    ensures MulD(SumColumn(c)) == Sum4(MulD(c.b0), MulD(c.b1), MulD(c.b2), MulD(c.b3))
    ensures MulE(SumColumn(c)) == Sum4(MulE(c.b0), MulE(c.b1), MulE(c.b2), MulE(c.b3))
  {
    hide XTime, Mul3, Mul9, MulB, MulD, MulE, Xor;
    MulsXor(c.b0, c.b1);
    MulsXor(c.b2, c.b3);
    MulsXor(Xor(c.b0, c.b1), Xor(c.b2, c.b3));
  }

  lemma {:induction false} SumOfOne(x: bv8)
    ensures Sum4(x, 0, 0, 0) == x && Sum4(0, x, 0, 0) == x && Sum4(0, 0, x, 0) == x && Sum4(0, 0, 0, x) == x
  {
  }

  lemma {:induction false} InvMixMixRow(a: bv8, b: bv8, c: bv8, d: bv8)
    ensures InvMixColumn(MixColumn(Column(a, b, c, d))).b0 == a
  {
    hide XTime, Mul3, Mul9, MulB, MulD, MulE, Sum4;
    MulsSum4(Column(XTime(a), Mul3(b), c, d));
    MulsSum4(Column(a, XTime(b), Mul3(c), d));
    MulsSum4(Column(a, b, XTime(c), Mul3(d)));
    MulsSum4(Column(Mul3(a), b, c, XTime(d)));
    Transpose(Column(MulE(XTime(a)), MulE(Mul3(b)), MulE(c), MulE(d)),
              Column(MulB(a), MulB(XTime(b)), MulB(Mul3(c)), MulB(d)),
              Column(MulD(a), MulD(b), MulD(XTime(c)), MulD(Mul3(d))),
              Column(Mul9(Mul3(a)), Mul9(b), Mul9(c), Mul9(XTime(d))));
    InverseDiagonal(a);
    InverseOff1(b);
    InverseOff2(c);
    InverseOff3(d);
    SumOfOne(a);
  }

  lemma {:induction false} MixInvMixRow(a: bv8, b: bv8, c: bv8, d: bv8)
    ensures MixColumn(InvMixColumn(Column(a, b, c, d))).b0 == a
  {
    hide XTime, Mul3, Mul9, MulB, MulD, MulE, Sum4;
    MulsSum4(Column(MulE(a), MulB(b), MulD(c), Mul9(d)));
    MulsSum4(Column(Mul9(a), MulE(b), MulB(c), MulD(d)));
    Transpose(Column(XTime(MulE(a)), XTime(MulB(b)), XTime(MulD(c)), XTime(Mul9(d))),
              Column(Mul3(Mul9(a)), Mul3(MulE(b)), Mul3(MulB(c)), Mul3(MulD(d))),
              Column(MulD(a), Mul9(b), MulE(c), MulB(d)),
              Column(MulB(a), MulD(b), Mul9(c), MulE(d)));
    InverseDiagonal(a);
    InverseOff1(b);
    InverseOff2(c);
    InverseOff3(d);
    SumOfOne(a);
  }

  lemma {:induction false} Sum4Rotate(a: bv8, b: bv8, c: bv8, d: bv8)
    ensures Sum4(a, b, c, d) == Sum4(b, c, d, a)
  {
    hide Xor;
    XorAssociative(a, b, Xor(c, d));
    XorAssociative(b, Xor(c, d), a);
    XorCommutative(a, Xor(b, Xor(c, d)));
    XorAssociative(c, d, a);
    XorAssociative(b, c, Xor(d, a));
  }

  // Both matrices are circulant, so one row decides all four.

  function Rotate(c: Column): Column { Column(c.b1, c.b2, c.b3, c.b0) }

  lemma {:induction false} MixColumnRotate(c: Column)
    ensures MixColumn(Rotate(c)) == Rotate(MixColumn(c))
  {
    hide XTime, Mul3, Sum4;
    Sum4Rotate(c.b0, XTime(c.b1), Mul3(c.b2), c.b3);
    Sum4Rotate(c.b0, c.b1, XTime(c.b2), Mul3(c.b3));
    Sum4Rotate(Mul3(c.b0), c.b1, c.b2, XTime(c.b3));
    Sum4Rotate(XTime(c.b0), Mul3(c.b1), c.b2, c.b3);
  }

  lemma {:induction false} InvMixColumnRotate(c: Column)
    ensures InvMixColumn(Rotate(c)) == Rotate(InvMixColumn(c))
  {
    hide Mul9, MulB, MulD, MulE, Sum4;
    Sum4Rotate(Mul9(c.b0), MulE(c.b1), MulB(c.b2), MulD(c.b3));
    Sum4Rotate(MulD(c.b0), Mul9(c.b1), MulE(c.b2), MulB(c.b3));
    Sum4Rotate(MulB(c.b0), MulD(c.b1), Mul9(c.b2), MulE(c.b3));
    Sum4Rotate(MulE(c.b0), MulB(c.b1), MulD(c.b2), Mul9(c.b3));
  }

  lemma {:induction false} InvMixColumnUndoes(c: Column)
    ensures InvMixColumn(MixColumn(c)) == c && MixColumn(InvMixColumn(c)) == c
  {
    hide MixColumn, InvMixColumn;
    var r1 := Rotate(c);
    var r2 := Rotate(r1);
    var r3 := Rotate(r2);
    MixColumnRotate(c); MixColumnRotate(r1); MixColumnRotate(r2);
    MixColumnRotate(InvMixColumn(c)); MixColumnRotate(InvMixColumn(r1)); MixColumnRotate(InvMixColumn(r2));
    InvMixColumnRotate(c); InvMixColumnRotate(r1); InvMixColumnRotate(r2);
    InvMixColumnRotate(MixColumn(c)); InvMixColumnRotate(MixColumn(r1)); InvMixColumnRotate(MixColumn(r2));
    InvMixMixRow(c.b0, c.b1, c.b2, c.b3); InvMixMixRow(c.b1, c.b2, c.b3, c.b0);
    InvMixMixRow(c.b2, c.b3, c.b0, c.b1); InvMixMixRow(c.b3, c.b0, c.b1, c.b2);
    MixInvMixRow(c.b0, c.b1, c.b2, c.b3); MixInvMixRow(c.b1, c.b2, c.b3, c.b0);
    MixInvMixRow(c.b2, c.b3, c.b0, c.b1); MixInvMixRow(c.b3, c.b0, c.b1, c.b2);
  }
}
