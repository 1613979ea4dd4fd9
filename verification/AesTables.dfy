/** The 32-bit words and lookup tables of rijndael-alg-fst.cxx. */
module AesTables {
  import opened Gf256
  import opened AesSBox

  // ---- words and columns ----

  /** A 32-bit unsigned word. */
  datatype U32 = U32(bits: bv32)

  function B0(w: U32): bv8 { (w.bits >> 24) as bv8 }
  function B1(w: U32): bv8 { ((w.bits >> 16) & 0xff) as bv8 }
  function B2(w: U32): bv8 { ((w.bits >> 8) & 0xff) as bv8 }
  function B3(w: U32): bv8 { (w.bits & 0xff) as bv8 }

  /** GETU32: four bytes, most significant first. */
  function Word(c: Column): U32 {
    U32((c.b0 as bv32 << 24) ^ (c.b1 as bv32 << 16) ^ (c.b2 as bv32 << 8) ^ (c.b3 as bv32))
  }

  /** PUTU32 writes these four bytes. */
  function ColumnOf(w: U32): Column { Column(B0(w), B1(w), B2(w), B3(w)) }

  function Xor2(a: U32, b: U32): U32 { U32(a.bits ^ b.bits) }

  function Mask(w: U32, m: bv32): U32 { U32(w.bits & m) }

  function Xor4(a: U32, b: U32, c: U32, d: U32): U32 { Xor2(Xor2(Xor2(a, b), c), d) }

  function Xor5(a: U32, b: U32, c: U32, d: U32, e: U32): U32 { Xor2(Xor4(a, b, c, d), e) }

  lemma {:induction false} ColumnOfWord(c: Column)
    ensures ColumnOf(Word(c)) == c
  {
  }

  lemma {:induction false} WordOfColumn(w: U32)
    ensures Word(ColumnOf(w)) == w
  {
  }

  lemma {:induction false} ColumnOfXor2(a: U32, b: U32)
    ensures ColumnOf(Xor2(a, b)) == XorColumn(ColumnOf(a), ColumnOf(b))
  {
  }

  lemma {:induction false} Xor2Associative(a: U32, b: U32, c: U32)
    ensures Xor2(Xor2(a, b), c) == Xor2(a, Xor2(b, c))
  {
  }

  lemma {:induction false} Xor2Commutative(a: U32, b: U32)
    ensures Xor2(a, b) == Xor2(b, a)
  {
  }

  // ---- the tables, defined by the comment at the head of the source file ----

  function Te0(x: bv8): U32 { Word(Column(XTime(S(x)), S(x), S(x), Mul3(S(x)))) }
  function Te1(x: bv8): U32 { Word(Column(Mul3(S(x)), XTime(S(x)), S(x), S(x))) }
  function Te2(x: bv8): U32 { Word(Column(S(x), Mul3(S(x)), XTime(S(x)), S(x))) }
  function Te3(x: bv8): U32 { Word(Column(S(x), S(x), Mul3(S(x)), XTime(S(x)))) }
  function Te4(x: bv8): U32 { Word(Column(S(x), S(x), S(x), S(x))) }

  function Td0(x: bv8): U32 { Word(Column(MulE(Si(x)), Mul9(Si(x)), MulD(Si(x)), MulB(Si(x)))) }
  function Td1(x: bv8): U32 { Word(Column(MulB(Si(x)), MulE(Si(x)), Mul9(Si(x)), MulD(Si(x)))) }
  function Td2(x: bv8): U32 { Word(Column(MulD(Si(x)), MulB(Si(x)), MulE(Si(x)), Mul9(Si(x)))) }
  function Td3(x: bv8): U32 { Word(Column(Mul9(Si(x)), MulD(Si(x)), MulB(Si(x)), MulE(Si(x)))) }
  function Td4(x: bv8): U32 { Word(Column(Si(x), Si(x), Si(x), Si(x))) }

  lemma {:induction false} XorOfFour(a: Column, b: Column, c: Column, d: Column)
    ensures ColumnOf(Xor4(Word(a), Word(b), Word(c), Word(d)))
         == Column(Sum4(a.b0, b.b0, c.b0, d.b0), Sum4(a.b1, b.b1, c.b1, d.b1),
                   Sum4(a.b2, b.b2, c.b2, d.b2), Sum4(a.b3, b.b3, c.b3, d.b3))
  {
    hide Word, ColumnOf, Xor, Xor2;
    Xor2Associative(Xor2(Word(a), Word(b)), Word(c), Word(d));
    ColumnOfWord(a);
    ColumnOfWord(b);
    ColumnOfWord(c);
    ColumnOfWord(d);
    ColumnOfXor2(Word(a), Word(b));
    ColumnOfXor2(Word(c), Word(d));
    ColumnOfXor2(Xor2(Word(a), Word(b)), Xor2(Word(c), Word(d)));
  }

  /** One line of a full encryption round: four lookups and a key word make one column of
      SubBytes, MixColumns and AddRoundKey. */
  lemma {:induction false} EncryptionLookup(x0: bv8, x1: bv8, x2: bv8, x3: bv8, k: U32)
    ensures ColumnOf(Xor5(Te0(x0), Te1(x1), Te2(x2), Te3(x3), k))
         == XorColumn(MixColumn(Column(S(x0), S(x1), S(x2), S(x3))), ColumnOf(k))
  {
    hide S, Word, ColumnOf, Xor, Xor2, Xor4, XTime, Mul3, Sum4;
    ColumnOfXor2(Xor4(Te0(x0), Te1(x1), Te2(x2), Te3(x3)), k);
    XorOfFour(Column(XTime(S(x0)), S(x0), S(x0), Mul3(S(x0))), Column(Mul3(S(x1)), XTime(S(x1)), S(x1), S(x1)),
              Column(S(x2), Mul3(S(x2)), XTime(S(x2)), S(x2)), Column(S(x3), S(x3), Mul3(S(x3)), XTime(S(x3))));
  }

  /** The same for decryption: InvSubBytes and InvMixColumns. */
  lemma {:induction false} DecryptionLookup(x0: bv8, x1: bv8, x2: bv8, x3: bv8)
    ensures ColumnOf(Xor4(Td0(x0), Td1(x1), Td2(x2), Td3(x3))) == InvMixColumn(Column(Si(x0), Si(x1), Si(x2), Si(x3)))
  {
    hide Si, Word, ColumnOf, Xor, Xor4, Mul9, MulB, MulD, MulE, Sum4;
    XorOfFour(Column(MulE(Si(x0)), Mul9(Si(x0)), MulD(Si(x0)), MulB(Si(x0))), Column(MulB(Si(x1)), MulE(Si(x1)), Mul9(Si(x1)), MulD(Si(x1))),
              Column(MulD(Si(x2)), MulB(Si(x2)), MulE(Si(x2)), Mul9(Si(x2))), Column(Mul9(Si(x3)), MulD(Si(x3)), MulB(Si(x3)), MulE(Si(x3))));
  }

  // ---- lookups without column mixing: the last round and the key schedule ----

  lemma {:induction false} Masks(a: bv8, b: bv8, c: bv8, d: bv8)
    ensures Mask(Word(Column(a, a, a, a)), 0xff000000) == Word(Column(a, 0, 0, 0))
    ensures Mask(Word(Column(b, b, b, b)), 0x00ff0000) == Word(Column(0, b, 0, 0))
    ensures Mask(Word(Column(c, c, c, c)), 0x0000ff00) == Word(Column(0, 0, c, 0))
    ensures Mask(Word(Column(d, d, d, d)), 0x000000ff) == Word(Column(0, 0, 0, d))
  {
  }

  lemma {:induction false} LastEncryptionLookup(x0: bv8, x1: bv8, x2: bv8, x3: bv8, k: U32)
    ensures ColumnOf(Xor5(Mask(Te4(x0), 0xff000000), Mask(Te4(x1), 0x00ff0000), Mask(Te4(x2), 0x0000ff00), Mask(Te4(x3), 0x000000ff), k))
         == XorColumn(Column(S(x0), S(x1), S(x2), S(x3)), ColumnOf(k))
  {
    hide S, Word, ColumnOf, Xor, Xor2, Xor4, Sum4;
    ColumnOfXor2(Xor4(Mask(Te4(x0), 0xff000000), Mask(Te4(x1), 0x00ff0000), Mask(Te4(x2), 0x0000ff00), Mask(Te4(x3), 0x000000ff)), k);
    Masks(S(x0), S(x1), S(x2), S(x3));
    XorOfFour(Column(S(x0), 0, 0, 0), Column(0, S(x1), 0, 0), Column(0, 0, S(x2), 0), Column(0, 0, 0, S(x3)));
    SumOfOne(S(x0)); SumOfOne(S(x1)); SumOfOne(S(x2)); SumOfOne(S(x3));
  }

  lemma {:induction false} LastDecryptionLookup(x0: bv8, x1: bv8, x2: bv8, x3: bv8, k: U32)
    ensures ColumnOf(Xor5(Mask(Td4(x0), 0xff000000), Mask(Td4(x1), 0x00ff0000), Mask(Td4(x2), 0x0000ff00), Mask(Td4(x3), 0x000000ff), k))
         == XorColumn(Column(Si(x0), Si(x1), Si(x2), Si(x3)), ColumnOf(k))
  {
    hide Si, Word, ColumnOf, Xor, Xor2, Xor4, Sum4;
    ColumnOfXor2(Xor4(Mask(Td4(x0), 0xff000000), Mask(Td4(x1), 0x00ff0000), Mask(Td4(x2), 0x0000ff00), Mask(Td4(x3), 0x000000ff)), k);
    Masks(Si(x0), Si(x1), Si(x2), Si(x3));
    XorOfFour(Column(Si(x0), 0, 0, 0), Column(0, Si(x1), 0, 0), Column(0, 0, Si(x2), 0), Column(0, 0, 0, Si(x3)));
    SumOfOne(Si(x0)); SumOfOne(Si(x1)); SumOfOne(Si(x2)); SumOfOne(Si(x3));
  }

  // ---- section 5.2: the words of the key schedule ----

  function RotWord(w: U32): U32 { Word(Column(B1(w), B2(w), B3(w), B0(w))) }

  function SubWord(w: U32): U32 { Word(Column(S(B0(w)), S(B1(w)), S(B2(w)), S(B3(w)))) }

  /** {02} to the power n. */
  function PowerOfX(n: nat): bv8 {
    if n == 0 then 1 else XTime(PowerOfX(n - 1))
  }

  /** Rcon[j] = [x^(j - 1), {00}, {00}, {00}]. */
  function Rcon(j: nat): U32
    requires j >= 1
  {
    Word(Column(PowerOfX(j - 1), 0, 0, 0))
  }

  function RconTable(): seq<U32> { [
    U32(0x01000000), U32(0x02000000), U32(0x04000000), U32(0x08000000),
    U32(0x10000000), U32(0x20000000), U32(0x40000000), U32(0x80000000),
    U32(0x1B000000), U32(0x36000000)
  ] }

  lemma {:induction false} RconTableIsRcon(i: nat)
    requires i < 10
    ensures RconTable()[i] == Rcon(i + 1)
  {
    assert PowerOfX(0) == 1;
    assert PowerOfX(1) == 2;
    assert PowerOfX(2) == 4;
    assert PowerOfX(3) == 8;
    assert PowerOfX(4) == 16;
    assert PowerOfX(5) == 32;
    assert PowerOfX(6) == 64;
    assert PowerOfX(7) == 128;
    assert PowerOfX(8) == 0x1b;
    assert PowerOfX(9) == 0x36;
  }

  /** Word i of the schedule expanded from a key of nk words. */
  function KeyWord(key: seq<bv8>, nk: nat, i: nat): U32
    requires 1 <= nk && |key| == 4 * nk
    decreases i
  {
    if i < nk then Word(Column(key[4 * i], key[4 * i + 1], key[4 * i + 2], key[4 * i + 3]))
    else
      var temp := KeyWord(key, nk, i - 1);
      Xor2(KeyWord(key, nk, i - nk),
           if i % nk == 0 then Xor2(SubWord(RotWord(temp)), Rcon(i / nk))
           else if nk > 6 && i % nk == 4 then SubWord(temp)
           else temp)
  }

  /** KeyExpansion: the 4 * (Nr + 1) words, Nr = Nk + 6. */
  function KeyExpansion(key: seq<bv8>, nk: nat): (w: seq<U32>)
    requires 1 <= nk && |key| == 4 * nk
  {
    seq(4 * (nk + 7), i requires 0 <= i < 4 * (nk + 7) => KeyWord(key, nk, i))
  }

  /** The masked Te4 lookups added to a word, as the key schedule writes them. */
  lemma {:induction false} ScheduleLookup(k: U32, x0: bv8, x1: bv8, x2: bv8, x3: bv8)
    ensures Xor5(k, Mask(Te4(x0), 0xff000000), Mask(Te4(x1), 0x00ff0000), Mask(Te4(x2), 0x0000ff00), Mask(Te4(x3), 0x000000ff))
         == Xor2(k, Word(Column(S(x0), S(x1), S(x2), S(x3))))
  {
    hide S, Te4, Word, ColumnOf, Xor, Xor2;
    var a, b, c, d := Mask(Te4(x0), 0xff000000), Mask(Te4(x1), 0x00ff0000), Mask(Te4(x2), 0x0000ff00), Mask(Te4(x3), 0x000000ff);
    LastEncryptionLookup(x0, x1, x2, x3, k);
    var sub := Column(S(x0), S(x1), S(x2), S(x3));
    ColumnOfWord(sub);
    ColumnOfXor2(Word(sub), k);
    WordOfColumn(Xor5(a, b, c, d, k));
    WordOfColumn(Xor2(Word(sub), k));
    Xor2Commutative(Word(sub), k);
    Xor2Commutative(Xor2(Xor2(Xor2(a, b), c), d), k);
    Xor2Associative(k, a, b);
    Xor2Associative(k, Xor2(a, b), c);
    Xor2Associative(k, Xor2(Xor2(a, b), c), d);
  }
}
