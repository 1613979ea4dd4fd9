/** The key schedule and the cipher of FIPS 197 byte by byte, without their auxiliary functions, and examples of its
    appendices. */
module FipsBytes {
  import opened Gf256
  import opened AesSBox
  import opened AesTables
  import opened Fips197
  import Rijndael

  // ---- the key schedule ----

  /** The first words are the key, byte by byte. */
  lemma {:induction false} KeyBytes(key: seq<bv8>, nk: nat, i: nat)
    requires 1 <= nk && |key| == 4 * nk && i < nk
    ensures var w := KeyExpansion(key, nk)[i];
      B0(w) == key[4 * i] && B1(w) == key[4 * i + 1] && B2(w) == key[4 * i + 2] && B3(w) == key[4 * i + 3]
  {
    hide Word, B0, B1, B2, B3;
    ColumnOfWord(Column(key[4 * i], key[4 * i + 1], key[4 * i + 2], key[4 * i + 3]));
  }

  lemma {:induction false} XorOfWords(a: U32, b: U32)
    ensures var x := Xor2(a, b);
      B0(x) == Xor(B0(a), B0(b)) && B1(x) == Xor(B1(a), B1(b)) && B2(x) == Xor(B2(a), B2(b)) && B3(x) == Xor(B3(a), B3(b))
  {
    hide Xor, Xor2, B0, B1, B2, B3;
    ColumnOfXor2(a, b);
  }

  lemma {:induction false} BytesOfWord(b0: bv8, b1: bv8, b2: bv8, b3: bv8)
    ensures var w := Word(Column(b0, b1, b2, b3)); B0(w) == b0 && B1(w) == b1 && B2(w) == b2 && B3(w) == b3
  {
    ColumnOfWord(Column(b0, b1, b2, b3));
  }

  /** Every later word is the one nk places back, XORed with the word before it; at the start of each group that word is
      rotated by one byte, substituted, and its first byte gets a power of x; in the middle of the groups of 256-bit keys it is
      substituted. */
  lemma {:induction false} ScheduleBytes(key: seq<bv8>, nk: nat, i: nat)
    requires (nk == 4 || nk == 6 || nk == 8) && nk <= i < 4 * (nk + 7) && |key| == 4 * nk
    ensures var w := KeyExpansion(key, nk); var x, p, q := w[i], w[i - nk], w[i - 1];
      if i % nk == 0 then
        B0(x) == Xor(Xor(B0(p), S(B1(q))), PowerOfX(i / nk - 1)) && B1(x) == Xor(B1(p), S(B2(q))) &&
        B2(x) == Xor(B2(p), S(B3(q))) && B3(x) == Xor(B3(p), S(B0(q)))
      else if nk == 8 && i % nk == 4 then
        B0(x) == Xor(B0(p), S(B0(q))) && B1(x) == Xor(B1(p), S(B1(q))) && B2(x) == Xor(B2(p), S(B2(q))) && B3(x) == Xor(B3(p), S(B3(q)))
      else
        B0(x) == Xor(B0(p), B0(q)) && B1(x) == Xor(B1(p), B1(q)) && B2(x) == Xor(B2(p), B2(q)) && B3(x) == Xor(B3(p), B3(q))
  {
    hide S, B0, B1, B2, B3, Word, Xor, Xor2, KeyWord, PowerOfX;
    var p, q := KeyWord(key, nk, i - nk), KeyWord(key, nk, i - 1);
    Rijndael.KeyWordStep(key, nk, i);
    if i % nk == 0 {
      FirstWordBytes(p, q, i / nk);
    } else if nk > 6 && i % nk == 4 {
      BytesOfWord(S(B0(q)), S(B1(q)), S(B2(q)), S(B3(q)));
      XorOfWords(p, SubWord(q));
    } else {
      XorOfWords(p, q);
    }
  }

  lemma {:induction false} FirstWordBytes(p: U32, q: U32, j: nat)
    requires j >= 1
    ensures var x := Xor2(p, Xor2(SubWord(RotWord(q)), Rcon(j)));
      B0(x) == Xor(Xor(B0(p), S(B1(q))), PowerOfX(j - 1)) && B1(x) == Xor(B1(p), S(B2(q))) &&
      B2(x) == Xor(B2(p), S(B3(q))) && B3(x) == Xor(B3(p), S(B0(q)))
  {
    hide S, B0, B1, B2, B3, Word, Xor, Xor2, PowerOfX;
    var rot, rcon := SubWord(RotWord(q)), Rcon(j);
    BytesOfWord(B1(q), B2(q), B3(q), B0(q));
    BytesOfWord(S(B1(q)), S(B2(q)), S(B3(q)), S(B0(q)));
    BytesOfWord(PowerOfX(j - 1), 0, 0, 0);
    XorOfWords(rot, rcon);
    XorOfWords(p, Xor2(rot, rcon));
    XorAssociative(B0(p), S(B1(q)), PowerOfX(j - 1));
    XorZero(S(B2(q)));
    XorZero(S(B3(q)));
    XorZero(S(B0(q)));
  }

  // ---- the rounds ----

  function ColumnNo(s: State, j: nat): Column { match j % 4 case 0 => s.c0 case 1 => s.c1 case 2 => s.c2 case _ => s.c3 }

  /** A full round: byte r of column j comes from the columns j, j + 1, j + 2, j + 3, with the factors of MixColumns. */
  lemma {:induction false} RoundBytes(s: State, k: State, j: nat)
    requires j < 4
    ensures var x, key := ColumnNo(AddRoundKey(MixColumns(ShiftRows(SubBytes(s))), k), j), ColumnNo(k, j);
      var a, b, c, d := S(ColumnNo(s, j).b0), S(ColumnNo(s, j + 1).b1), S(ColumnNo(s, j + 2).b2), S(ColumnNo(s, j + 3).b3);
      x.b0 == Xor(Xor(Xor(Mul(2, a), Mul(3, b)), Xor(c, d)), key.b0) && x.b1 == Xor(Xor(Xor(a, Mul(2, b)), Xor(Mul(3, c), d)), key.b1) &&
      x.b2 == Xor(Xor(Xor(a, b), Xor(Mul(2, c), Mul(3, d))), key.b2) && x.b3 == Xor(Xor(Xor(Mul(3, a), b), Xor(c, Mul(2, d))), key.b3)
  {
    hide S, MixColumn, Mul, Xor;
    ShiftedColumn(s, j);
    var a, b, c, d := S(ColumnNo(s, j).b0), S(ColumnNo(s, j + 1).b1), S(ColumnNo(s, j + 2).b2), S(ColumnNo(s, j + 3).b3);
    ColumnByColumn(ShiftRows(SubBytes(s)), k, j);
    MixedBytes(a, b, c, d);
  }

  /** ShiftRows after SubBytes, for one column. */
  lemma {:induction false} ShiftedColumn(s: State, j: nat)
    requires j < 4
    ensures ColumnNo(ShiftRows(SubBytes(s)), j) ==
      Column(S(ColumnNo(s, j).b0), S(ColumnNo(s, j + 1).b1), S(ColumnNo(s, j + 2).b2), S(ColumnNo(s, j + 3).b3))
  {
    hide S;
    var t := SubBytes(s);
    assert ColumnNo(ShiftRows(t), j) == Column(ColumnNo(t, j).b0, ColumnNo(t, j + 1).b1, ColumnNo(t, j + 2).b2, ColumnNo(t, j + 3).b3);
    SubstitutedColumn(s, j);
    SubstitutedColumn(s, j + 1);
    SubstitutedColumn(s, j + 2);
    SubstitutedColumn(s, j + 3);
  }

  lemma {:induction false} SubstitutedColumn(s: State, j: nat)
    ensures var c, x := ColumnNo(s, j), ColumnNo(SubBytes(s), j); x == Column(S(c.b0), S(c.b1), S(c.b2), S(c.b3))
  {
    hide S;
  }

  lemma {:induction false} ColumnByColumn(s: State, k: State, j: nat)
    requires j < 4
    ensures ColumnNo(AddRoundKey(MixColumns(s), k), j) == XorColumn(MixColumn(ColumnNo(s, j)), ColumnNo(k, j))
    ensures ColumnNo(AddRoundKey(s, k), j) == XorColumn(ColumnNo(s, j), ColumnNo(k, j))
  {
    hide MixColumn, XorColumn;
  }

  lemma {:induction false} MixedBytes(a: bv8, b: bv8, c: bv8, d: bv8)
    ensures MixColumn(Column(a, b, c, d)) ==
      Column(Xor(Xor(Mul(2, a), Mul(3, b)), Xor(c, d)), Xor(Xor(a, Mul(2, b)), Xor(Mul(3, c), d)),
             Xor(Xor(a, b), Xor(Mul(2, c), Mul(3, d))), Xor(Xor(Mul(3, a), b), Xor(c, Mul(2, d))))
  {
    hide Mul, XTime, Xor;
    Factors(a);
    Factors(b);
    Factors(c);
    Factors(d);
  }

  lemma {:induction false} Factors(x: bv8)
    ensures Mul(2, x) == XTime(x) && Mul(3, x) == Xor(XTime(x), x)
  {
    hide Mul, XTime;
    XTimeIsMulByTwo(x);
    MulByThree(x);
  }

  lemma {:induction false} MulByThree(x: bv8)
    ensures Mul(3, x) == Xor(XTime(x), x)
  {
    hide Mul;
    MulIsFlat(3, x);
  }

  /** The last round has no MixColumns. */
  lemma {:induction false} LastRoundBytes(s: State, k: State, j: nat)
    requires j < 4
    ensures var x, key := ColumnNo(AddRoundKey(ShiftRows(SubBytes(s)), k), j), ColumnNo(k, j);
      x.b0 == Xor(S(ColumnNo(s, j).b0), key.b0) && x.b1 == Xor(S(ColumnNo(s, j + 1).b1), key.b1) &&
      x.b2 == Xor(S(ColumnNo(s, j + 2).b2), key.b2) && x.b3 == Xor(S(ColumnNo(s, j + 3).b3), key.b3)
  {
    hide S, Xor;
    ShiftedColumn(s, j);
    ColumnByColumn(ShiftRows(SubBytes(s)), k, j);
  }

  /** Four words of the schedule as a round key. */
  function KeyAt(w: seq<U32>, r: nat): State
    requires 4 * r + 4 <= |w|
  {
    State(ColumnOf(w[4 * r]), ColumnOf(w[4 * r + 1]), ColumnOf(w[4 * r + 2]), ColumnOf(w[4 * r + 3]))
  }

  /** For any states that follow each other as the rounds do, the first after the first round key is added, the cipher is
      the last round of the last of them. */
  lemma {:induction false} CipherIs(w: seq<U32>, nr: nat, input: State, st: seq<State>)
    requires 1 <= nr == |st| && |w| == 4 * (nr + 1)
    requires st[0] == AddRoundKey(input, KeyAt(w, 0))
    requires forall r :: 0 < r < nr ==> st[r] == AddRoundKey(MixColumns(ShiftRows(SubBytes(st[r - 1]))), KeyAt(w, r))
    ensures Cipher(w, nr, input) == AddRoundKey(ShiftRows(SubBytes(st[nr - 1])), KeyAt(w, nr))
  {
    RoundsAre(w, nr, input, st, nr - 1);
  }

  lemma {:induction false} RoundsAre(w: seq<U32>, nr: nat, input: State, st: seq<State>, r: nat)
    requires 1 <= nr == |st| && |w| == 4 * (nr + 1) && r < nr
    requires st[0] == AddRoundKey(input, KeyAt(w, 0))
    requires forall r :: 0 < r < nr ==> st[r] == AddRoundKey(MixColumns(ShiftRows(SubBytes(st[r - 1]))), KeyAt(w, r))
    ensures CipherRounds(w, r, input) == st[r]
  {
    hide AddRoundKey, MixColumns, ShiftRows, SubBytes;
    if r > 0 {
      RoundsAre(w, nr, input, st, r - 1);
    }
  }

  /** Byte i of a block is row i % 4 of column i / 4. */
  lemma {:induction false} BlockBytes(b: seq<bv8>, j: nat)
    requires |b| == 16 && j < 4
    ensures ColumnNo(Rijndael.StateOfBlock(b), j) == Column(b[4 * j], b[4 * j + 1], b[4 * j + 2], b[4 * j + 3])
  {
  }

  // ---- examples ----

  lemma {:induction false} SValue(x: bv8, y: bv8)
    requires FlatMul(x, y) == 1
    ensures S(x) == Affine(y)
  {
    hide FlatMul, Mul, Inverse, Affine;
    MulIsFlat(x, y);
    InverseUnique(x, y);
  }

  lemma {:induction false} ValuesOfKey()
    ensures S(0xcf) == 0x8a && S(0x4f) == 0x84 && S(0x3c) == 0xeb && S(0x09) == 0x01
  {
    hide S, Inverse;
    SValue(0xcf, 0xe6);
    SValue(0x4f, 0x09);
    SValue(0x3c, 0x77);
    SValue(0x09, 0x4f);
  }

  lemma {:induction false} ValuesOfColumn0()
    ensures S(0x19) == 0xd4 && S(0x3d) == 0x27 && S(0xe3) == 0x11 && S(0xbe) == 0xae
  {
    hide S, Inverse;
    SValue(0x19, 0x3f);
    SValue(0x3d, 0xbb);
    SValue(0xe3, 0xeb);
    SValue(0xbe, 0x86);
  }

  lemma {:induction false} ValuesOfColumn1()
    ensures S(0xa0) == 0xe0 && S(0xf4) == 0xbf && S(0xe2) == 0x98 && S(0x2b) == 0xf1
  {
    hide S, Inverse;
    SValue(0xa0, 0xfb);
    SValue(0xf4, 0x68);
    SValue(0xe2, 0xd6);
    SValue(0x2b, 0x15);
  }

  lemma {:induction false} ValuesOfColumn2()
    ensures S(0x9a) == 0xb8 && S(0xc6) == 0xb4 && S(0x8d) == 0x5d && S(0x2a) == 0xe5
  {
    hide S, Inverse;
    SValue(0x9a, 0x9f);
    SValue(0xc6, 0xe4);
    SValue(0x8d, 0x02);
    SValue(0x2a, 0x98);
  }

  lemma {:induction false} ValuesOfColumn3()
    ensures S(0xe9) == 0x1e && S(0xf8) == 0x41 && S(0x48) == 0x52 && S(0x08) == 0x30
  {
    hide S, Inverse;
    SValue(0xe9, 0x4e);
    SValue(0xf8, 0xdd);
    SValue(0x48, 0xa7);
    SValue(0x08, 0xe8);
  }

  const ExampleKey: seq<bv8> := [0x2b, 0x7e, 0x15, 0x16, 0x28, 0xae, 0xd2, 0xa6, 0xab, 0xf7, 0x15, 0x88, 0x09, 0xcf, 0x4f, 0x3c]
  const ExampleInput: seq<bv8> := [0x32, 0x43, 0xf6, 0xa8, 0x88, 0x5a, 0x30, 0x8d, 0x31, 0x31, 0x98, 0xa2, 0xe0, 0x37, 0x07, 0x34]

  /** Appendix A.1: the first four words after the key, byte by byte. */
  lemma {:induction false} ExampleWords()
    ensures var w := KeyExpansion(ExampleKey, 4);
      |w| == 44 &&
      ColumnOf(w[4]) == Column(0xa0, 0xfa, 0xfe, 0x17) && ColumnOf(w[5]) == Column(0x88, 0x54, 0x2c, 0xb1) &&
      ColumnOf(w[6]) == Column(0x23, 0xa3, 0x39, 0x39) && ColumnOf(w[7]) == Column(0x2a, 0x6c, 0x76, 0x05)
  {
    hide S, B0, B1, B2, B3, KeyExpansion, PowerOfX;
    var key := ExampleKey;
    ScheduleLength(key);
    KeyBytes(key, 4, 0);
    KeyBytes(key, 4, 1);
    KeyBytes(key, 4, 2);
    KeyBytes(key, 4, 3);
    FirstPower();
    ValuesOfKey();
    ScheduleBytes(key, 4, 4);
    ScheduleBytes(key, 4, 5);
    ScheduleBytes(key, 4, 6);
    ScheduleBytes(key, 4, 7);
  }

  /** And as words. */
  lemma {:induction false} ScheduleExample()
    ensures var w := KeyExpansion(ExampleKey, 4);
      |w| == 44 &&
      w[4].bits == 0xa0fafe17 && w[5].bits == 0x88542cb1 && w[6].bits == 0x23a33939 && w[7].bits == 0x2a6c7605
  {
    hide KeyExpansion;
    ExampleWords();
    var w := KeyExpansion(ExampleKey, 4);
    WordOfBytes(w[4], 0xa0, 0xfa, 0xfe, 0x17);
    WordOfBytes(w[5], 0x88, 0x54, 0x2c, 0xb1);
    WordOfBytes(w[6], 0x23, 0xa3, 0x39, 0x39);
    WordOfBytes(w[7], 0x2a, 0x6c, 0x76, 0x05);
  }

  lemma {:induction false} ScheduleLength(key: seq<bv8>)
    requires |key| == 16
    ensures |KeyExpansion(key, 4)| == 44
  {
  }

  lemma {:induction false} WordOfBytes(w: U32, b0: bv8, b1: bv8, b2: bv8, b3: bv8)
    requires B0(w) == b0 && B1(w) == b1 && B2(w) == b2 && B3(w) == b3
    ensures w.bits == (b0 as bv32 << 24) | (b1 as bv32 << 16) | (b2 as bv32 << 8) | (b3 as bv32)
  {
  }

  lemma {:induction false} FirstPower()
    ensures PowerOfX(0) == 1
  {
  }

  lemma {:induction false} MixExample()
    ensures MixColumn(Column(0xd4, 0xbf, 0x5d, 0x30)) == Column(0x04, 0x66, 0x81, 0xe5)
    ensures MixColumn(Column(0xe0, 0xb4, 0x52, 0xae)) == Column(0xe0, 0xcb, 0x19, 0x9a)
    ensures MixColumn(Column(0xb8, 0x41, 0x11, 0xf1)) == Column(0x48, 0xf8, 0xd3, 0x7a)
    ensures MixColumn(Column(0x1e, 0x27, 0x98, 0xe5)) == Column(0x28, 0x06, 0x26, 0x4c)
  {
  }

  /** The first round key of the example, and its input with the key added. */
  lemma {:induction false} ExampleKeys()
    ensures var w := KeyExpansion(ExampleKey, 4);
      |w| == 44 &&
      AddRoundKey(Rijndael.StateOfBlock(ExampleInput), KeyAt(w, 0)) ==
        State(Column(0x19, 0x3d, 0xe3, 0xbe), Column(0xa0, 0xf4, 0xe2, 0x2b), Column(0x9a, 0xc6, 0x8d, 0x2a), Column(0xe9, 0xf8, 0x48, 0x08)) &&
      KeyAt(w, 1) == State(Column(0xa0, 0xfa, 0xfe, 0x17), Column(0x88, 0x54, 0x2c, 0xb1), Column(0x23, 0xa3, 0x39, 0x39), Column(0x2a, 0x6c, 0x76, 0x05))
  {
    hide B0, B1, B2, B3, KeyExpansion;
    var key := ExampleKey;
    ScheduleLength(key);
    KeyBytes(key, 4, 0);
    KeyBytes(key, 4, 1);
    KeyBytes(key, 4, 2);
    KeyBytes(key, 4, 3);
    ExampleWords();
  }

  /** Appendix B: the state at the start of the second round. */
  lemma {:induction false} RoundExample()
    ensures CipherRounds(KeyExpansion(ExampleKey, 4), 1, Rijndael.StateOfBlock(ExampleInput)) ==
      State(Column(0xa4, 0x9c, 0x7f, 0xf2), Column(0x68, 0x9f, 0x35, 0x2b), Column(0x6b, 0x5b, 0xea, 0x43), Column(0x02, 0x6a, 0x50, 0x49))
  {
    hide S, KeyExpansion, MixColumn;
    ExampleKeys();
    ValuesOfColumn0();
    ValuesOfColumn1();
    ValuesOfColumn2();
    ValuesOfColumn3();
    MixExample();
  }
}
