/** rijndael-alg-fst.cxx, the branches that are not unrolled. */
module Rijndael {
  import opened Gf256
  import opened AesSBox
  import opened AesTables
  import opened Fips197

  /** Four bytes at offset i as a column; GETU32 is the word of this column. */
  function ColumnAt(b: seq<bv8>, i: nat): Column
    requires i + 4 <= |b|
  {
    Column(b[i], b[i + 1], b[i + 2], b[i + 3])
  }

  /** A 16-byte block as a state: byte r + 4c is s[r, c]. */
  function StateOfBlock(b: seq<bv8>): State
    requires |b| == 16
  {
    State(ColumnAt(b, 0), ColumnAt(b, 4), ColumnAt(b, 8), ColumnAt(b, 12))
  }

  function BlockOfState(s: State): (b: seq<bv8>)
    ensures |b| == 16 && StateOfBlock(b) == s
  {
    [s.c0.b0, s.c0.b1, s.c0.b2, s.c0.b3, s.c1.b0, s.c1.b1, s.c1.b2, s.c1.b3,
     s.c2.b0, s.c2.b1, s.c2.b2, s.c2.b3, s.c3.b0, s.c3.b1, s.c3.b2, s.c3.b3]
  }

  predicate IsKeySize(keyBits: int) { keyBits == 128 || keyBits == 192 || keyBits == 256 }

  /** PUTU32: store a word, most significant byte first. */
  method PutU32(a: array<bv8>, i: nat, w: U32)
    requires i + 4 <= a.Length
    modifies a
    ensures ColumnAt(a[..], i) == ColumnOf(w)
    ensures forall j :: 0 <= j < a.Length && !(i <= j < i + 4) ==> a[j] == old(a[j])
  {
    a[i], a[i + 1], a[i + 2], a[i + 3] := B0(w), B1(w), B2(w), B3(w);
  }

  lemma {:induction false} KeyWordStep(key: seq<bv8>, nk: nat, i: nat)
    requires 1 <= nk <= i && |key| == 4 * nk
    ensures i % nk == 0 ==> KeyWord(key, nk, i) == Xor2(KeyWord(key, nk, i - nk), Xor2(SubWord(RotWord(KeyWord(key, nk, i - 1))), Rcon(i / nk)))
    ensures i % nk != 0 && !(nk > 6 && i % nk == 4) ==> KeyWord(key, nk, i) == Xor2(KeyWord(key, nk, i - nk), KeyWord(key, nk, i - 1))
    ensures nk > 6 && i % nk == 4 ==> KeyWord(key, nk, i) == Xor2(KeyWord(key, nk, i - nk), SubWord(KeyWord(key, nk, i - 1)))
  {
    hide Xor2, SubWord, RotWord, Rcon, Word;
  }

  /** The word that starts a new group of Nk words. */
  function FirstOfGroup(k: U32, temp: U32, i: nat): U32
    requires i < 10
  {
    Xor2(Xor5(k, Mask(Te4(B1(temp)), 0xff000000), Mask(Te4(B2(temp)), 0x00ff0000), Mask(Te4(B3(temp)), 0x0000ff00), Mask(Te4(B0(temp)), 0x000000ff)), RconTable()[i])
  }

  lemma {:induction false} FirstOfGroupIsFips(k: U32, temp: U32, i: nat)
    requires i < 10
    ensures FirstOfGroup(k, temp, i) == Xor2(k, Xor2(SubWord(RotWord(temp)), Rcon(i + 1)))
  {
    hide S, Te4, Word, B0, B1, B2, B3, Xor2, Xor5, Rcon;
    ScheduleLookup(k, B1(temp), B2(temp), B3(temp), B0(temp));
    ColumnOfWord(Column(B1(temp), B2(temp), B3(temp), B0(temp)));
    RconTableIsRcon(i);
    Xor2Associative(k, SubWord(RotWord(temp)), RconTable()[i]);
  }

  function MiddleOfGroup(k: U32, temp: U32): U32 {
    Xor5(k, Mask(Te4(B0(temp)), 0xff000000), Mask(Te4(B1(temp)), 0x00ff0000), Mask(Te4(B2(temp)), 0x0000ff00), Mask(Te4(B3(temp)), 0x000000ff))
  }

  lemma {:induction false} MiddleOfGroupIsFips(k: U32, temp: U32)
    ensures MiddleOfGroup(k, temp) == Xor2(k, SubWord(temp))
  {
    hide S, Te4, Word, B0, B1, B2, B3, Xor2, Xor5;
    ScheduleLookup(k, B0(temp), B1(temp), B2(temp), B3(temp));
  }

  /** Four consecutive words of the schedule: the first as given, each other one the word nk places
      back plus its predecessor. */
  method ExtendByFour(rk: array<U32>, n: nat, nk: nat, first: U32, ghost key: seq<bv8>)
    requires 4 <= nk <= n && |key| == 4 * nk && n + 4 <= rk.Length
    requires forall j :: 0 <= j < n ==> rk[j] == KeyWord(key, nk, j)
    requires KeyWord(key, nk, n) == first
    requires KeyWord(key, nk, n + 1) == Xor2(KeyWord(key, nk, n + 1 - nk), KeyWord(key, nk, n))
    requires KeyWord(key, nk, n + 2) == Xor2(KeyWord(key, nk, n + 2 - nk), KeyWord(key, nk, n + 1))
    requires KeyWord(key, nk, n + 3) == Xor2(KeyWord(key, nk, n + 3 - nk), KeyWord(key, nk, n + 2))
    modifies rk
    ensures forall j :: 0 <= j < n + 4 ==> rk[j] == KeyWord(key, nk, j)
    ensures forall j :: n + 4 <= j < rk.Length ==> rk[j] == old(rk[j])
  {
    hide KeyWord, Xor2;
    rk[n] := first;
    rk[n + 1] := Xor2(rk[n + 1 - nk], rk[n]);
    rk[n + 2] := Xor2(rk[n + 2 - nk], rk[n + 1]);
    rk[n + 3] := Xor2(rk[n + 3 - nk], rk[n + 2]);
  }

  /** The two further words of a group of six. */
  method ExtendByTwo(rk: array<U32>, n: nat, ghost key: seq<bv8>)
    requires 6 <= n && |key| == 24 && n + 2 <= rk.Length
    requires forall j :: 0 <= j < n ==> rk[j] == KeyWord(key, 6, j)
    requires KeyWord(key, 6, n) == Xor2(KeyWord(key, 6, n - 6), KeyWord(key, 6, n - 1))
    requires KeyWord(key, 6, n + 1) == Xor2(KeyWord(key, 6, n - 5), KeyWord(key, 6, n))
    modifies rk
    ensures forall j :: 0 <= j < n + 2 ==> rk[j] == KeyWord(key, 6, j)
    ensures forall j :: n + 2 <= j < rk.Length ==> rk[j] == old(rk[j])
  {
    hide KeyWord, Xor2;
    rk[n] := Xor2(rk[n - 6], rk[n - 1]);
    rk[n + 1] := Xor2(rk[n - 5], rk[n]);
  }

  lemma {:induction false} FirstKeyWords(cipherKey: seq<bv8>, nk: nat)
    requires 1 <= nk && |cipherKey| >= 4 * nk
    ensures forall j :: 0 <= j < nk ==> KeyWord(cipherKey[..4 * nk], nk, j) == Word(ColumnAt(cipherKey, 4 * j))
  {
    hide Word;
  }

  lemma {:induction false} ExpansionWords(rk: seq<U32>, key: seq<bv8>, nk: nat)
    requires 1 <= nk && |key| == 4 * nk && |rk| == 4 * (nk + 7)
    requires forall j :: 0 <= j < |rk| ==> rk[j] == KeyWord(key, nk, j)
    ensures rk == KeyExpansion(key, nk)
  {
    hide KeyWord;
  }

  lemma {:induction false} Group128(key: seq<bv8>, i: nat, o: nat)
    requires |key| == 16 && i < 10 && o == 4 * i
    ensures KeyWord(key, 4, o + 4) == FirstOfGroup(KeyWord(key, 4, o), KeyWord(key, 4, o + 3), i)
    ensures KeyWord(key, 4, o + 5) == Xor2(KeyWord(key, 4, o + 1), KeyWord(key, 4, o + 4))
    ensures KeyWord(key, 4, o + 6) == Xor2(KeyWord(key, 4, o + 2), KeyWord(key, 4, o + 5))
    ensures KeyWord(key, 4, o + 7) == Xor2(KeyWord(key, 4, o + 3), KeyWord(key, 4, o + 6))
  {
    hide KeyWord, Xor2, SubWord, RotWord, Rcon, FirstOfGroup;
    FirstOfGroupIsFips(KeyWord(key, 4, o), KeyWord(key, 4, o + 3), i);
    KeyWordStep(key, 4, o + 4);
    KeyWordStep(key, 4, o + 5);
    KeyWordStep(key, 4, o + 6);
    KeyWordStep(key, 4, o + 7);
  }

  method Expand128(rk: array<U32>, ghost cipherKey: seq<bv8>) returns (nr: int)
    requires |cipherKey| >= 16 && rk.Length >= 44
    requires forall j :: 0 <= j < 4 ==> rk[j] == Word(ColumnAt(cipherKey, 4 * j))
    modifies rk
    ensures nr == 10 && rk[..44] == KeyExpansion(cipherKey[..16], 4)
    ensures forall j :: 44 <= j < rk.Length ==> rk[j] == old(rk[j])
  {
    hide KeyWord, KeyExpansion, Word, Xor2, FirstOfGroup;
    FirstKeyWords(cipherKey, 4);
    ghost var key := cipherKey[..16];
    var i, o := 0, 0;
    while true
      invariant 0 <= i < 10 && o == 4 * i
      invariant forall j :: 0 <= j < o + 4 ==> rk[j] == KeyWord(key, 4, j)
      invariant forall j :: o + 4 <= j < rk.Length ==> rk[j] == old(rk[j])
      decreases 10 - i
    {
      Group128(key, i, o);
      ExtendByFour(rk, o + 4, 4, FirstOfGroup(rk[o], rk[o + 3], i), key);
      i := i + 1;
      if i == 10 {
        ExpansionWords(rk[..44], key, 4);
        return 10;
      }
      o := o + 4;
    }
  }

  lemma {:induction false} Group192(key: seq<bv8>, i: nat, o: nat)
    requires |key| == 24 && i < 10 && o == 6 * i
    ensures KeyWord(key, 6, o + 6) == FirstOfGroup(KeyWord(key, 6, o), KeyWord(key, 6, o + 5), i)
    ensures KeyWord(key, 6, o + 7) == Xor2(KeyWord(key, 6, o + 1), KeyWord(key, 6, o + 6))
    ensures KeyWord(key, 6, o + 8) == Xor2(KeyWord(key, 6, o + 2), KeyWord(key, 6, o + 7))
    ensures KeyWord(key, 6, o + 9) == Xor2(KeyWord(key, 6, o + 3), KeyWord(key, 6, o + 8))
    ensures KeyWord(key, 6, o + 10) == Xor2(KeyWord(key, 6, o + 4), KeyWord(key, 6, o + 9))
    ensures KeyWord(key, 6, o + 11) == Xor2(KeyWord(key, 6, o + 5), KeyWord(key, 6, o + 10))
  {
    hide KeyWord, Xor2, SubWord, RotWord, Rcon, FirstOfGroup;
    FirstOfGroupIsFips(KeyWord(key, 6, o), KeyWord(key, 6, o + 5), i);
    KeyWordStep(key, 6, o + 6);
    KeyWordStep(key, 6, o + 7);
    KeyWordStep(key, 6, o + 8);
    KeyWordStep(key, 6, o + 9);
    KeyWordStep(key, 6, o + 10);
    KeyWordStep(key, 6, o + 11);
  }

  method Expand192(rk: array<U32>, ghost cipherKey: seq<bv8>) returns (nr: int)
    requires |cipherKey| >= 24 && rk.Length >= 52
    requires forall j :: 0 <= j < 6 ==> rk[j] == Word(ColumnAt(cipherKey, 4 * j))
    modifies rk
    ensures nr == 12 && rk[..52] == KeyExpansion(cipherKey[..24], 6)
    ensures forall j :: 52 <= j < rk.Length ==> rk[j] == old(rk[j])
  {
    hide KeyWord, KeyExpansion, Word, Xor2, FirstOfGroup;
    FirstKeyWords(cipherKey, 6);
    ghost var key := cipherKey[..24];
    var i, o := 0, 0;
    while true
      invariant 0 <= i < 8 && o == 6 * i
      invariant forall j :: 0 <= j < o + 6 ==> rk[j] == KeyWord(key, 6, j)
      invariant forall j :: o + 6 <= j < rk.Length ==> rk[j] == old(rk[j])
      decreases 8 - i
    {
      Group192(key, i, o);
      ExtendByFour(rk, o + 6, 6, FirstOfGroup(rk[o], rk[o + 5], i), key);
      i := i + 1;
      if i == 8 {
        ExpansionWords(rk[..52], key, 6);
        return 12;
      }
      ExtendByTwo(rk, o + 10, key);
      o := o + 6;
    }
  }

  lemma {:induction false} Group256(key: seq<bv8>, i: nat, o: nat)
    requires |key| == 32 && i < 10 && o == 8 * i
    ensures KeyWord(key, 8, o + 8) == FirstOfGroup(KeyWord(key, 8, o), KeyWord(key, 8, o + 7), i)
    ensures KeyWord(key, 8, o + 9) == Xor2(KeyWord(key, 8, o + 1), KeyWord(key, 8, o + 8))
    ensures KeyWord(key, 8, o + 10) == Xor2(KeyWord(key, 8, o + 2), KeyWord(key, 8, o + 9))
    ensures KeyWord(key, 8, o + 11) == Xor2(KeyWord(key, 8, o + 3), KeyWord(key, 8, o + 10))
  {
    hide KeyWord, Xor2, SubWord, RotWord, Rcon, FirstOfGroup;
    FirstOfGroupIsFips(KeyWord(key, 8, o), KeyWord(key, 8, o + 7), i);
    KeyWordStep(key, 8, o + 8);
    KeyWordStep(key, 8, o + 9);
    KeyWordStep(key, 8, o + 10);
    KeyWordStep(key, 8, o + 11);
  }

  lemma {:induction false} HalfGroup256(key: seq<bv8>, i: nat, o: nat)
    requires |key| == 32 && o == 8 * i
    ensures KeyWord(key, 8, o + 12) == MiddleOfGroup(KeyWord(key, 8, o + 4), KeyWord(key, 8, o + 11))
    ensures KeyWord(key, 8, o + 13) == Xor2(KeyWord(key, 8, o + 5), KeyWord(key, 8, o + 12))
    ensures KeyWord(key, 8, o + 14) == Xor2(KeyWord(key, 8, o + 6), KeyWord(key, 8, o + 13))
    ensures KeyWord(key, 8, o + 15) == Xor2(KeyWord(key, 8, o + 7), KeyWord(key, 8, o + 14))
  {
    hide KeyWord, Xor2, SubWord, MiddleOfGroup;
    MiddleOfGroupIsFips(KeyWord(key, 8, o + 4), KeyWord(key, 8, o + 11));
    KeyWordStep(key, 8, o + 12);
    KeyWordStep(key, 8, o + 13);
    KeyWordStep(key, 8, o + 14);
    KeyWordStep(key, 8, o + 15);
  }

  method Expand256(rk: array<U32>, ghost cipherKey: seq<bv8>) returns (nr: int)
    requires |cipherKey| >= 32 && rk.Length >= 60
    requires forall j :: 0 <= j < 8 ==> rk[j] == Word(ColumnAt(cipherKey, 4 * j))
    modifies rk
    ensures nr == 14 && rk[..60] == KeyExpansion(cipherKey[..32], 8)
    ensures forall j :: 60 <= j < rk.Length ==> rk[j] == old(rk[j])
  {
    hide KeyWord, KeyExpansion, Word, Xor2, FirstOfGroup, MiddleOfGroup;
    FirstKeyWords(cipherKey, 8);
    ghost var key := cipherKey[..32];
    var i, o := 0, 0;
    while true
      invariant 0 <= i < 7 && o == 8 * i
      invariant forall j :: 0 <= j < o + 8 ==> rk[j] == KeyWord(key, 8, j)
      invariant forall j :: o + 8 <= j < rk.Length ==> rk[j] == old(rk[j])
      decreases 7 - i
    {
      Group256(key, i, o);
      ExtendByFour(rk, o + 8, 8, FirstOfGroup(rk[o], rk[o + 7], i), key);
      i := i + 1;
      if i == 7 {
        ExpansionWords(rk[..60], key, 8);
        return 14;
      }
      HalfGroup256(key, i - 1, o);
      ExtendByFour(rk, o + 12, 8, MiddleOfGroup(rk[o + 4], rk[o + 11]), key);
      o := o + 8;
    }
  }

  /** rk[i] and rk[i + 1] are loaded from the key bytes, the words before them already are. */
  method LoadTwo(rk: array<U32>, cipherKey: seq<bv8>, i: nat)
    requires i + 2 <= rk.Length && 4 * i + 8 <= |cipherKey|
    requires forall j :: 0 <= j < i ==> rk[j] == Word(ColumnAt(cipherKey, 4 * j))
    modifies rk
    ensures forall j :: 0 <= j < i + 2 ==> rk[j] == Word(ColumnAt(cipherKey, 4 * j))
    ensures forall j :: i + 2 <= j < rk.Length ==> rk[j] == old(rk[j])
  {
    hide Word;
    rk[i] := Word(ColumnAt(cipherKey, 4 * i));
    rk[i + 1] := Word(ColumnAt(cipherKey, 4 * i + 4));
  }

  method KeySetupEnc(rk: array<U32>, cipherKey: seq<bv8>, keyBits: int) returns (nr: int)
    requires |cipherKey| >= (if keyBits == 128 then 16 else if keyBits == 192 then 24 else 32)
    requires rk.Length >= (if IsKeySize(keyBits) then 4 * (keyBits / 32 + 7) else 8)
    modifies rk
    ensures IsKeySize(keyBits) ==> nr == keyBits / 32 + 6 && rk[..4 * (nr + 1)] == KeyExpansion(cipherKey[..keyBits / 8], keyBits / 32)
    ensures !IsKeySize(keyBits) ==> nr == 0 && forall j :: 0 <= j < 8 ==> rk[j] == Word(ColumnAt(cipherKey, 4 * j))
    ensures forall j :: (if IsKeySize(keyBits) then 4 * (nr + 1) else 8) <= j < rk.Length ==> rk[j] == old(rk[j])
  {
    hide KeyWord, KeyExpansion, Word;
    LoadTwo(rk, cipherKey, 0);
    LoadTwo(rk, cipherKey, 2);
    if keyBits == 128 {
      nr := Expand128(rk, cipherKey);
      return;
    }
    LoadTwo(rk, cipherKey, 4);
    if keyBits == 192 {
      nr := Expand192(rk, cipherKey);
      return;
    }
    LoadTwo(rk, cipherKey, 6);
    if keyBits == 256 {
      nr := Expand256(rk, cipherKey);
      return;
    }
    return 0;
  }

  // ---- rijndaelKeySetupDec ----

  /** Where word m goes when the round keys are put in reverse order. */
  function Mirror(nr: nat, m: nat): (p: nat)
    requires m < 4 * (nr + 1)
    ensures p < 4 * (nr + 1)
  {
    4 * (nr - m / 4) + m % 4
  }

  lemma {:induction false} MirrorBlock(nr: nat, k: nat)
    requires k <= nr
    ensures forall m :: 4 * k <= m < 4 * k + 4 ==> Mirror(nr, m) == 4 * (nr - k) + (m - 4 * k)
  {
  }

  method SwapWords(rk: array<U32>, i: nat, j: nat)
    requires i < rk.Length && j < rk.Length
    modifies rk
    ensures rk[i] == old(rk[j]) && rk[j] == old(rk[i])
    ensures forall m :: 0 <= m < rk.Length && m != i && m != j ==> rk[m] == old(rk[m])
  {
    var temp := rk[i];
    rk[i] := rk[j];
    rk[j] := temp;
  }

  /** How far the swapping has come: words outside i .. j + 4 are in their places, those inside untouched. */
  ghost predicate PartlyReversed(rk: array<U32>, nr: nat, w: seq<U32>, i: nat, j: int)
    requires |w| == 4 * (nr + 1) <= rk.Length
    reads rk
  {
    && (forall m :: 0 <= m < |w| && (m < i || j + 4 <= m) ==> rk[m] == w[Mirror(nr, m)])
    && (forall m :: i <= m < j + 4 && m < |w| ==> rk[m] == w[m])
  }

  /** The four word swaps of one iteration. */
  method SwapRoundKeys(rk: array<U32>, i: nat, j: nat)
    requires i + 4 <= j && j + 4 <= rk.Length
    modifies rk
    ensures forall m :: i <= m < i + 4 ==> rk[m] == old(rk[m + j - i])
    ensures forall m :: j <= m < j + 4 ==> rk[m] == old(rk[m - j + i])
    ensures forall m :: 0 <= m < rk.Length && !(i <= m < i + 4) && !(j <= m < j + 4) ==> rk[m] == old(rk[m])
  {
    SwapWords(rk, i, j);
    SwapWords(rk, i + 1, j + 1);
    SwapWords(rk, i + 2, j + 2);
    SwapWords(rk, i + 3, j + 3);
  }

  /** One iteration: round key k changes places with round key nr - k. */
  method SwapStep(rk: array<U32>, i: nat, j: nat, ghost nr: nat, ghost k: nat, ghost w: seq<U32>)
    requires 2 * k < nr && i == 4 * k && j == 4 * (nr - k)
    requires |w| == 4 * (nr + 1) <= rk.Length && PartlyReversed(rk, nr, w, i, j)
    modifies rk
    ensures PartlyReversed(rk, nr, w, i + 4, j - 4)
    ensures forall m :: 4 * (nr + 1) <= m < rk.Length ==> rk[m] == old(rk[m])
  {
    hide Mirror;
    MirrorBlock(nr, k);
    MirrorBlock(nr, nr - k);
    SwapRoundKeys(rk, i, j);
  }

  method ReverseRoundKeys(rk: array<U32>, nr: nat, ghost w: seq<U32>)
    requires 4 * (nr + 1) <= rk.Length && w == rk[..4 * (nr + 1)]
    modifies rk
    ensures forall m :: 0 <= m < 4 * (nr + 1) ==> rk[m] == w[Mirror(nr, m)]
    ensures forall m :: 4 * (nr + 1) <= m < rk.Length ==> rk[m] == old(rk[m])
  {
    hide Mirror;
    var i, j := 0, 4 * nr;
    ghost var k := 0;
    assert PartlyReversed(rk, nr, w, i, j);
    while i < j
      invariant 0 <= k && i == 4 * k && j == 4 * (nr - k) && i <= j + 4
      invariant PartlyReversed(rk, nr, w, i, j)
      invariant forall m :: 4 * (nr + 1) <= m < rk.Length ==> rk[m] == old(rk[m])
      decreases j - i
    {
      hide PartlyReversed;
      SwapStep(rk, i, j, nr, k, w);
      i, j, k := i + 4, j - 4, k + 1;
    }
    if i == j {
      MirrorBlock(nr, k);
    }
  }

  function InvMixWord(w: U32): U32 {
    Xor4(Td0(B3(Te4(B0(w)))), Td1(B3(Te4(B1(w)))), Td2(B3(Te4(B2(w)))), Td3(B3(Te4(B3(w)))))
  }

  lemma {:induction false} InvMixWordIsInvMixColumn(w: U32)
    ensures ColumnOf(InvMixWord(w)) == InvMixColumn(ColumnOf(w))
  {
    hide S, Si, B0, B1, B2, B3, Word, InvMixColumn, Xor4, Td0, Td1, Td2, Td3;
    var c := ColumnOf(w);
    ColumnOfWord(Column(S(c.b0), S(c.b0), S(c.b0), S(c.b0)));
    ColumnOfWord(Column(S(c.b1), S(c.b1), S(c.b1), S(c.b1)));
    ColumnOfWord(Column(S(c.b2), S(c.b2), S(c.b2), S(c.b2)));
    ColumnOfWord(Column(S(c.b3), S(c.b3), S(c.b3), S(c.b3)));
    SubColumnUndone(c);
    DecryptionLookup(S(c.b0), S(c.b1), S(c.b2), S(c.b3));
  }

  method InvMixRoundKey(rk: array<U32>, o: nat)
    requires o + 4 <= rk.Length
    modifies rk
    ensures forall m :: 0 <= m < rk.Length ==> rk[m] == if o <= m < o + 4 then InvMixWord(old(rk[m])) else old(rk[m])
  {
    hide InvMixWord;
    rk[o] := InvMixWord(rk[o]);
    rk[o + 1] := InvMixWord(rk[o + 1]);
    rk[o + 2] := InvMixWord(rk[o + 2]);
    rk[o + 3] := InvMixWord(rk[o + 3]);
  }

  method InvMixInnerRoundKeys(rk: array<U32>, nr: nat)
    requires 4 * (nr + 1) <= rk.Length
    modifies rk
    ensures forall m :: 4 <= m < 4 * nr ==> rk[m] == InvMixWord(old(rk[m]))
    ensures forall m :: 0 <= m < rk.Length && !(4 <= m < 4 * nr) ==> rk[m] == old(rk[m])
  {
    hide InvMixWord;
    var i, o := 1, 0;
    while i < nr
      invariant 1 <= i && (i <= nr || i == 1) && o == 4 * (i - 1)
      invariant forall m :: 0 <= m < rk.Length ==> rk[m] == if 4 <= m < 4 * i then InvMixWord(old(rk[m])) else old(rk[m])
    {
      o := o + 4;
      InvMixRoundKey(rk, o);
      i := i + 1;
    }
  }

  lemma {:induction false} InverseRoundKey(w: seq<U32>, d: seq<U32>, nr: nat, r: nat)
    requires 1 <= nr && |w| == |d| == 4 * (nr + 1) && r <= nr
    requires forall m :: 0 <= m < |d| ==> d[m] == if 4 <= m < 4 * nr then InvMixWord(w[Mirror(nr, m)]) else w[Mirror(nr, m)]
    ensures RoundKey(d, r) == if 0 < r < nr then InvMixColumns(RoundKey(w, nr - r)) else RoundKey(w, nr - r)
  {
    hide InvMixWord, InvMixColumn, ColumnOf, Mirror;
    MirrorBlock(nr, r);
    var v := 4 * (nr - r);
    InvMixWordIsInvMixColumn(w[v]);
    InvMixWordIsInvMixColumn(w[v + 1]);
    InvMixWordIsInvMixColumn(w[v + 2]);
    InvMixWordIsInvMixColumn(w[v + 3]);
  }

  lemma {:induction false} InverseSchedule(w: seq<U32>, d: seq<U32>, nr: nat)
    requires 1 <= nr && |w| == |d| == 4 * (nr + 1)
    requires forall m :: 0 <= m < |d| ==> d[m] == if 4 <= m < 4 * nr then InvMixWord(w[Mirror(nr, m)]) else w[Mirror(nr, m)]
    ensures IsInverseSchedule(w, d, nr)
  {
    hide InvMixWord, InvMixColumns, RoundKey, Mirror;
    forall r | 0 <= r <= nr
      ensures RoundKey(d, r) == if 0 < r < nr then InvMixColumns(RoundKey(w, nr - r)) else RoundKey(w, nr - r)
    {
      InverseRoundKey(w, d, nr, r);
    }
  }

  /** Both loops of rijndaelKeySetupDec on an expanded key. */
  method InvertSchedule(rk: array<U32>, nr: nat)
    requires 1 <= nr && 4 * (nr + 1) <= rk.Length
    modifies rk
    ensures IsInverseSchedule(old(rk[..4 * (nr + 1)]), rk[..4 * (nr + 1)], nr)
    ensures forall m :: 4 * (nr + 1) <= m < rk.Length ==> rk[m] == old(rk[m])
  {
    hide IsInverseSchedule, InvMixWord, Mirror;
    ghost var w := rk[..4 * (nr + 1)];
    ReverseRoundKeys(rk, nr, w);
    InvMixInnerRoundKeys(rk, nr);
    InverseSchedule(w, rk[..4 * (nr + 1)], nr);
  }

  method KeySetupDec(rk: array<U32>, cipherKey: seq<bv8>, keyBits: int) returns (nr: int)
    requires |cipherKey| >= (if keyBits == 128 then 16 else if keyBits == 192 then 24 else 32)
    requires rk.Length >= (if IsKeySize(keyBits) then 4 * (keyBits / 32 + 7) else 8)
    modifies rk
    ensures IsKeySize(keyBits) ==>
      nr == keyBits / 32 + 6 && IsInverseSchedule(KeyExpansion(cipherKey[..keyBits / 8], keyBits / 32), rk[..4 * (nr + 1)], nr)
    ensures !IsKeySize(keyBits) ==> nr == 0 && forall j :: 0 <= j < 8 ==> rk[j] == Word(ColumnAt(cipherKey, 4 * j))
    ensures forall j :: (if IsKeySize(keyBits) then 4 * (nr + 1) else 8) <= j < rk.Length ==> rk[j] == old(rk[j])
  {
    hide KeyExpansion, IsInverseSchedule, Word;
    nr := KeySetupEnc(rk, cipherKey, keyBits);
    if nr > 0 {
      InvertSchedule(rk, nr);
    }
  }

  // ---- rijndaelEncrypt and rijndaelDecrypt ----

  function EncryptWord(a: U32, b: U32, c: U32, d: U32, k: U32): U32 {
    Xor5(Te0(B0(a)), Te1(B1(b)), Te2(B2(c)), Te3(B3(d)), k)
  }

  function LastEncryptWord(a: U32, b: U32, c: U32, d: U32, k: U32): U32 {
    Xor5(Mask(Te4(B0(a)), 0xff000000), Mask(Te4(B1(b)), 0x00ff0000), Mask(Te4(B2(c)), 0x0000ff00), Mask(Te4(B3(d)), 0x000000ff), k)
  }

  function DecryptWord(a: U32, b: U32, c: U32, d: U32, k: U32): U32 {
    Xor5(Td0(B0(a)), Td1(B1(b)), Td2(B2(c)), Td3(B3(d)), k)
  }

  function LastDecryptWord(a: U32, b: U32, c: U32, d: U32, k: U32): U32 {
    Xor5(Mask(Td4(B0(a)), 0xff000000), Mask(Td4(B1(b)), 0x00ff0000), Mask(Td4(B2(c)), 0x0000ff00), Mask(Td4(B3(d)), 0x000000ff), k)
  }

  lemma {:induction false} EncryptRound(s0: U32, s1: U32, s2: U32, s3: U32, k0: U32, k1: U32, k2: U32, k3: U32)
    ensures StateOf(EncryptWord(s0, s1, s2, s3, k0), EncryptWord(s1, s2, s3, s0, k1), EncryptWord(s2, s3, s0, s1, k2), EncryptWord(s3, s0, s1, s2, k3))
         == AddRoundKey(MixColumns(ShiftRows(SubBytes(StateOf(s0, s1, s2, s3)))), StateOf(k0, k1, k2, k3))
    ensures StateOf(LastEncryptWord(s0, s1, s2, s3, k0), LastEncryptWord(s1, s2, s3, s0, k1), LastEncryptWord(s2, s3, s0, s1, k2), LastEncryptWord(s3, s0, s1, s2, k3))
         == AddRoundKey(ShiftRows(SubBytes(StateOf(s0, s1, s2, s3))), StateOf(k0, k1, k2, k3))
  {
    hide S, B0, B1, B2, B3, MixColumn, XorColumn, Xor5, Te0, Te1, Te2, Te3, Te4, Mask;
    EncryptionLookup(B0(s0), B1(s1), B2(s2), B3(s3), k0);
    EncryptionLookup(B0(s1), B1(s2), B2(s3), B3(s0), k1);
    EncryptionLookup(B0(s2), B1(s3), B2(s0), B3(s1), k2);
    EncryptionLookup(B0(s3), B1(s0), B2(s1), B3(s2), k3);
    LastEncryptionLookup(B0(s0), B1(s1), B2(s2), B3(s3), k0);
    LastEncryptionLookup(B0(s1), B1(s2), B2(s3), B3(s0), k1);
    LastEncryptionLookup(B0(s2), B1(s3), B2(s0), B3(s1), k2);
    LastEncryptionLookup(B0(s3), B1(s0), B2(s1), B3(s2), k3);
  }

  lemma {:induction false} DecryptRound(s0: U32, s1: U32, s2: U32, s3: U32, k0: U32, k1: U32, k2: U32, k3: U32)
    ensures StateOf(DecryptWord(s0, s3, s2, s1, k0), DecryptWord(s1, s0, s3, s2, k1), DecryptWord(s2, s1, s0, s3, k2), DecryptWord(s3, s2, s1, s0, k3))
         == AddRoundKey(InvMixColumns(InvShiftRows(InvSubBytes(StateOf(s0, s1, s2, s3)))), StateOf(k0, k1, k2, k3))
    ensures StateOf(LastDecryptWord(s0, s3, s2, s1, k0), LastDecryptWord(s1, s0, s3, s2, k1), LastDecryptWord(s2, s1, s0, s3, k2), LastDecryptWord(s3, s2, s1, s0, k3))
         == AddRoundKey(InvShiftRows(InvSubBytes(StateOf(s0, s1, s2, s3))), StateOf(k0, k1, k2, k3))
  {
    hide Si, B0, B1, B2, B3, InvMixColumn, XorColumn, Xor2, Xor4, Td0, Td1, Td2, Td3, Td4, Mask;
    DecryptionLine(s0, s3, s2, s1, k0);
    DecryptionLine(s1, s0, s3, s2, k1);
    DecryptionLine(s2, s1, s0, s3, k2);
    DecryptionLine(s3, s2, s1, s0, k3);
  }

  lemma {:induction false} DecryptionLine(a: U32, b: U32, c: U32, d: U32, k: U32)
    ensures ColumnOf(DecryptWord(a, b, c, d, k)) == XorColumn(InvMixColumn(Column(Si(B0(a)), Si(B1(b)), Si(B2(c)), Si(B3(d)))), ColumnOf(k))
    ensures ColumnOf(LastDecryptWord(a, b, c, d, k)) == XorColumn(Column(Si(B0(a)), Si(B1(b)), Si(B2(c)), Si(B3(d))), ColumnOf(k))
  {
    hide Si, B0, B1, B2, B3, ColumnOf, InvMixColumn, XorColumn, Xor2, Xor4, Td0, Td1, Td2, Td3, Td4, Mask;
    DecryptionLookup(B0(a), B1(b), B2(c), B3(d));
    ColumnOfXor2(Xor4(Td0(B0(a)), Td1(B1(b)), Td2(B2(c)), Td3(B3(d))), k);
    LastDecryptionLookup(B0(a), B1(b), B2(c), B3(d), k);
  }

  lemma {:induction false} AddFirstKey(w: seq<U32>, input: State)
    requires 4 <= |w|
    ensures StateOf(Xor2(Word(input.c0), w[0]), Xor2(Word(input.c1), w[1]), Xor2(Word(input.c2), w[2]), Xor2(Word(input.c3), w[3]))
         == CipherRounds(w, 0, input) == EqInvCipherRounds(w, 0, input)
  {
    hide Word, ColumnOf, XorColumn, Xor2;
    ColumnOfWord(input.c0);
    ColumnOfWord(input.c1);
    ColumnOfWord(input.c2);
    ColumnOfWord(input.c3);
    ColumnOfXor2(Word(input.c0), w[0]);
    ColumnOfXor2(Word(input.c1), w[1]);
    ColumnOfXor2(Word(input.c2), w[2]);
    ColumnOfXor2(Word(input.c3), w[3]);
  }

  /** The four PUTU32 of an output block. */
  method PutBlock(ct: array<bv8>, c: nat, s0: U32, s1: U32, s2: U32, s3: U32)
    requires c + 16 <= ct.Length
    modifies ct
    ensures ct[c..c + 16] == BlockOfState(StateOf(s0, s1, s2, s3))
    ensures forall j :: 0 <= j < ct.Length && !(c <= j < c + 16) ==> ct[j] == old(ct[j])
  {
    hide ColumnOf;
    PutU32(ct, c, s0);
    PutU32(ct, c + 4, s1);
    PutU32(ct, c + 8, s2);
    PutU32(ct, c + 12, s3);
  }

  /** The loop of rijndaelEncrypt: two full rounds an iteration, the last one left half way. */
  method EncryptRounds(rk: seq<U32>, nr: nat, x0: U32, x1: U32, x2: U32, x3: U32, ghost w: seq<U32>, ghost input: State)
    returns (t0: U32, t1: U32, t2: U32, t3: U32, o: nat)
    requires nr >= 2 && nr % 2 == 0 && |rk| >= 4 * (nr + 1) && w == rk[..4 * (nr + 1)]
    requires StateOf(x0, x1, x2, x3) == CipherRounds(w, 0, input)
    ensures o == 4 * nr && StateOf(t0, t1, t2, t3) == CipherRounds(w, nr - 1, input)
  {
    hide CipherRounds, StateOf, EncryptWord;
    var s0, s1, s2, s3 := x0, x1, x2, x3;
    var r := nr / 2;
    o := 0;
    while true
      invariant 1 <= r <= nr / 2 && o == 4 * (nr - 2 * r)
      invariant StateOf(s0, s1, s2, s3) == CipherRounds(w, nr - 2 * r, input)
      decreases r
    {
      CipherStep(w, nr - 2 * r + 1, input, s0, s1, s2, s3);
      t0 := EncryptWord(s0, s1, s2, s3, rk[o + 4]);
      t1 := EncryptWord(s1, s2, s3, s0, rk[o + 5]);
      t2 := EncryptWord(s2, s3, s0, s1, rk[o + 6]);
      t3 := EncryptWord(s3, s0, s1, s2, rk[o + 7]);
      o := o + 8;
      r := r - 1;
      if r == 0 {
        break;
      }
      CipherStep(w, nr - 2 * r, input, t0, t1, t2, t3);
      s0 := EncryptWord(t0, t1, t2, t3, rk[o]);
      s1 := EncryptWord(t1, t2, t3, t0, rk[o + 1]);
      s2 := EncryptWord(t2, t3, t0, t1, rk[o + 2]);
      s3 := EncryptWord(t3, t0, t1, t2, rk[o + 3]);
    }
  }

  /** One table round takes the state after round r - 1 to the state after round r. */
  lemma {:induction false} CipherStep(w: seq<U32>, r: nat, input: State, s0: U32, s1: U32, s2: U32, s3: U32)
    requires 1 <= r && 4 * r + 4 <= |w|
    requires StateOf(s0, s1, s2, s3) == CipherRounds(w, r - 1, input)
    ensures StateOf(EncryptWord(s0, s1, s2, s3, w[4 * r]), EncryptWord(s1, s2, s3, s0, w[4 * r + 1]),
                    EncryptWord(s2, s3, s0, s1, w[4 * r + 2]), EncryptWord(s3, s0, s1, s2, w[4 * r + 3])) == CipherRounds(w, r, input)
  {
    hide StateOf, EncryptWord, AddRoundKey, MixColumns, ShiftRows, SubBytes;
    EncryptRound(s0, s1, s2, s3, w[4 * r], w[4 * r + 1], w[4 * r + 2], w[4 * r + 3]);
  }

  /** Encrypts the block at offset p of pt into offset c of ct; the two may be the same place. */
  method Encrypt(rk: seq<U32>, nr: nat, pt: array<bv8>, p: nat, ct: array<bv8>, c: nat)
    requires nr >= 2 && nr % 2 == 0 && |rk| >= 4 * (nr + 1)
    requires p + 16 <= pt.Length && c + 16 <= ct.Length
    modifies ct
    ensures ct[c..c + 16] == BlockOfState(Cipher(rk[..4 * (nr + 1)], nr, StateOfBlock(old(pt[p..p + 16]))))
    ensures forall j :: 0 <= j < ct.Length && !(c <= j < c + 16) ==> ct[j] == old(ct[j])
  {
    hide Word, StateOf, Xor2, LastEncryptWord, CipherRounds, AddRoundKey, SubBytes, ShiftRows, BlockOfState;
    ghost var w := rk[..4 * (nr + 1)];
    ghost var input := StateOfBlock(pt[p..p + 16]);
    var s0 := Xor2(Word(ColumnAt(pt[..], p)), rk[0]);
    var s1 := Xor2(Word(ColumnAt(pt[..], p + 4)), rk[1]);
    var s2 := Xor2(Word(ColumnAt(pt[..], p + 8)), rk[2]);
    var s3 := Xor2(Word(ColumnAt(pt[..], p + 12)), rk[3]);
    AddFirstKey(w, input);
    var t0, t1, t2, t3, o := EncryptRounds(rk, nr, s0, s1, s2, s3, w, input);
    EncryptRound(t0, t1, t2, t3, rk[o], rk[o + 1], rk[o + 2], rk[o + 3]);
    s0 := LastEncryptWord(t0, t1, t2, t3, rk[o]);
    s1 := LastEncryptWord(t1, t2, t3, t0, rk[o + 1]);
    s2 := LastEncryptWord(t2, t3, t0, t1, rk[o + 2]);
    s3 := LastEncryptWord(t3, t0, t1, t2, rk[o + 3]);
    assert RoundKey(w, nr) == StateOf(rk[o], rk[o + 1], rk[o + 2], rk[o + 3]);
    assert StateOf(s0, s1, s2, s3) == Cipher(w, nr, input);
    PutBlock(ct, c, s0, s1, s2, s3);
  }

  /** The loop of rijndaelDecrypt. */
  method DecryptRounds(rk: seq<U32>, nr: nat, x0: U32, x1: U32, x2: U32, x3: U32, ghost d: seq<U32>, ghost input: State)
    returns (t0: U32, t1: U32, t2: U32, t3: U32, o: nat)
    requires nr >= 2 && nr % 2 == 0 && |rk| >= 4 * (nr + 1) && d == rk[..4 * (nr + 1)]
    requires StateOf(x0, x1, x2, x3) == EqInvCipherRounds(d, 0, input)
    ensures o == 4 * nr && StateOf(t0, t1, t2, t3) == EqInvCipherRounds(d, nr - 1, input)
  {
    hide EqInvCipherRounds, StateOf, DecryptWord;
    var s0, s1, s2, s3 := x0, x1, x2, x3;
    var r := nr / 2;
    o := 0;
    while true
      invariant 1 <= r <= nr / 2 && o == 4 * (nr - 2 * r)
      invariant StateOf(s0, s1, s2, s3) == EqInvCipherRounds(d, nr - 2 * r, input)
      decreases r
    {
      InvCipherStep(d, nr - 2 * r + 1, input, s0, s1, s2, s3);
      t0 := DecryptWord(s0, s3, s2, s1, rk[o + 4]);
      t1 := DecryptWord(s1, s0, s3, s2, rk[o + 5]);
      t2 := DecryptWord(s2, s1, s0, s3, rk[o + 6]);
      t3 := DecryptWord(s3, s2, s1, s0, rk[o + 7]);
      o := o + 8;
      r := r - 1;
      if r == 0 {
        break;
      }
      InvCipherStep(d, nr - 2 * r, input, t0, t1, t2, t3);
      s0 := DecryptWord(t0, t3, t2, t1, rk[o]);
      s1 := DecryptWord(t1, t0, t3, t2, rk[o + 1]);
      s2 := DecryptWord(t2, t1, t0, t3, rk[o + 2]);
      s3 := DecryptWord(t3, t2, t1, t0, rk[o + 3]);
    }
  }

  lemma {:induction false} InvCipherStep(d: seq<U32>, r: nat, input: State, s0: U32, s1: U32, s2: U32, s3: U32)
    requires 1 <= r && 4 * r + 4 <= |d|
    requires StateOf(s0, s1, s2, s3) == EqInvCipherRounds(d, r - 1, input)
    ensures StateOf(DecryptWord(s0, s3, s2, s1, d[4 * r]), DecryptWord(s1, s0, s3, s2, d[4 * r + 1]),
                    DecryptWord(s2, s1, s0, s3, d[4 * r + 2]), DecryptWord(s3, s2, s1, s0, d[4 * r + 3])) == EqInvCipherRounds(d, r, input)
  {
    hide StateOf, DecryptWord, AddRoundKey, InvMixColumns, InvShiftRows, InvSubBytes;
    DecryptRound(s0, s1, s2, s3, d[4 * r], d[4 * r + 1], d[4 * r + 2], d[4 * r + 3]);
  }

  /** Decrypts the block at offset c of ct into offset p of pt; the two may be the same place. */
  method Decrypt(rk: seq<U32>, nr: nat, ct: array<bv8>, c: nat, pt: array<bv8>, p: nat)
    requires nr >= 2 && nr % 2 == 0 && |rk| >= 4 * (nr + 1)
    requires c + 16 <= ct.Length && p + 16 <= pt.Length
    modifies pt
    ensures pt[p..p + 16] == BlockOfState(EqInvCipher(rk[..4 * (nr + 1)], nr, StateOfBlock(old(ct[c..c + 16]))))
    ensures forall j :: 0 <= j < pt.Length && !(p <= j < p + 16) ==> pt[j] == old(pt[j])
  {
    hide Word, StateOf, Xor2, LastDecryptWord, EqInvCipherRounds, AddRoundKey, InvSubBytes, InvShiftRows, BlockOfState;
    ghost var d := rk[..4 * (nr + 1)];
    ghost var input := StateOfBlock(ct[c..c + 16]);
    var s0 := Xor2(Word(ColumnAt(ct[..], c)), rk[0]);
    var s1 := Xor2(Word(ColumnAt(ct[..], c + 4)), rk[1]);
    var s2 := Xor2(Word(ColumnAt(ct[..], c + 8)), rk[2]);
    var s3 := Xor2(Word(ColumnAt(ct[..], c + 12)), rk[3]);
    AddFirstKey(d, input);
    var t0, t1, t2, t3, o := DecryptRounds(rk, nr, s0, s1, s2, s3, d, input);
    DecryptRound(t0, t1, t2, t3, rk[o], rk[o + 1], rk[o + 2], rk[o + 3]);
    s0 := LastDecryptWord(t0, t3, t2, t1, rk[o]);
    s1 := LastDecryptWord(t1, t0, t3, t2, rk[o + 1]);
    s2 := LastDecryptWord(t2, t1, t0, t3, rk[o + 2]);
    s3 := LastDecryptWord(t3, t2, t1, t0, rk[o + 3]);
    assert RoundKey(d, nr) == StateOf(rk[o], rk[o + 1], rk[o + 2], rk[o + 3]);
    assert StateOf(s0, s1, s2, s3) == EqInvCipher(d, nr, input);
    PutBlock(pt, p, s0, s1, s2, s3);
  }

  // ---- the two are inverse to each other ----

  /** For every key and block: decrypting under the inverted schedule undoes encryption under the
      expanded key, encryption undoes decryption, and what rijndaelDecrypt computes is InvCipher. */
  lemma {:induction false} DecryptUndoesEncrypt(key: seq<bv8>, nk: nat, d: seq<U32>, block: seq<bv8>)
    requires 1 <= nk && |key| == 4 * nk && |block| == 16
    requires |d| == 4 * (nk + 7) && IsInverseSchedule(KeyExpansion(key, nk), d, nk + 6)
    ensures var w := KeyExpansion(key, nk);
            var ct := BlockOfState(Cipher(w, nk + 6, StateOfBlock(block)));
            BlockOfState(EqInvCipher(d, nk + 6, StateOfBlock(ct))) == block
    ensures var w := KeyExpansion(key, nk);
            var pt := BlockOfState(EqInvCipher(d, nk + 6, StateOfBlock(block)));
            pt == BlockOfState(InvCipher(w, nk + 6, StateOfBlock(block))) && BlockOfState(Cipher(w, nk + 6, StateOfBlock(pt))) == block
  {
    hide KeyWord, IsInverseSchedule, Cipher, InvCipher, EqInvCipher;
    var w := KeyExpansion(key, nk);
    var s := StateOfBlock(block);
    EqInvCipherIsInvCipher(w, d, nk + 6, s);
    EqInvCipherIsInvCipher(w, d, nk + 6, Cipher(w, nk + 6, s));
    InvCipherUndoesCipher(w, nk + 6, s);
    CipherUndoesInvCipher(w, nk + 6, s);
  }
}
