/** The cipher of FIPS 197 on a state of four columns, written as the standard writes it. */
module Fips197 {
  import opened Gf256
  import opened AesSBox
  import opened AesTables

  /** s[r, c] is byte r of column c. */
  datatype State = State(c0: Column, c1: Column, c2: Column, c3: Column)

  // ---- the transformations of sections 5.1 and 5.3 ----

  function SubColumn(c: Column): Column { Column(S(c.b0), S(c.b1), S(c.b2), S(c.b3)) }

  function InvSubColumn(c: Column): Column { Column(Si(c.b0), Si(c.b1), Si(c.b2), Si(c.b3)) }

  function SubBytes(s: State): State {
    State(SubColumn(s.c0), SubColumn(s.c1), SubColumn(s.c2), SubColumn(s.c3))
  }

  function InvSubBytes(s: State): State {
    State(InvSubColumn(s.c0), InvSubColumn(s.c1), InvSubColumn(s.c2), InvSubColumn(s.c3))
  }

  /** Row r moves r places to the left. */
  function ShiftRows(s: State): State {
    State(Column(s.c0.b0, s.c1.b1, s.c2.b2, s.c3.b3), Column(s.c1.b0, s.c2.b1, s.c3.b2, s.c0.b3),
          Column(s.c2.b0, s.c3.b1, s.c0.b2, s.c1.b3), Column(s.c3.b0, s.c0.b1, s.c1.b2, s.c2.b3))
  }

  /** Row r moves r places to the right. */
  function InvShiftRows(s: State): State {
    State(Column(s.c0.b0, s.c3.b1, s.c2.b2, s.c1.b3), Column(s.c1.b0, s.c0.b1, s.c3.b2, s.c2.b3),
          Column(s.c2.b0, s.c1.b1, s.c0.b2, s.c3.b3), Column(s.c3.b0, s.c2.b1, s.c1.b2, s.c0.b3))
  }

  function MixColumns(s: State): State {
    State(MixColumn(s.c0), MixColumn(s.c1), MixColumn(s.c2), MixColumn(s.c3))
  }

  function InvMixColumns(s: State): State {
    State(InvMixColumn(s.c0), InvMixColumn(s.c1), InvMixColumn(s.c2), InvMixColumn(s.c3))
  }

  function AddRoundKey(s: State, k: State): State {
    State(XorColumn(s.c0, k.c0), XorColumn(s.c1, k.c1), XorColumn(s.c2, k.c2), XorColumn(s.c3, k.c3))
  }

  function StateOf(w0: U32, w1: U32, w2: U32, w3: U32): State {
    State(ColumnOf(w0), ColumnOf(w1), ColumnOf(w2), ColumnOf(w3))
  }

  /** Round key r: the four words w[4r .. 4r + 4]. */
  function RoundKey(w: seq<U32>, r: nat): State
    requires 4 * r + 4 <= |w|
  {
    StateOf(w[4 * r], w[4 * r + 1], w[4 * r + 2], w[4 * r + 3])
  }

  // ---- section 5.1: Cipher ----

  /** The state after the initial AddRoundKey and r full rounds. */
  function CipherRounds(w: seq<U32>, r: nat, input: State): State
    requires 4 * r + 4 <= |w|
    decreases r
  {
    if r == 0 then AddRoundKey(input, RoundKey(w, 0))
    else AddRoundKey(MixColumns(ShiftRows(SubBytes(CipherRounds(w, r - 1, input)))), RoundKey(w, r))
  }

  function Cipher(w: seq<U32>, nr: nat, input: State): State
    requires 1 <= nr && |w| == 4 * (nr + 1)
  {
    AddRoundKey(ShiftRows(SubBytes(CipherRounds(w, nr - 1, input))), RoundKey(w, nr))
  }

  // ---- section 5.3: InvCipher ----

  /** The state of InvCipher after its initial AddRoundKey and r full rounds. */
  function InvCipherRounds(w: seq<U32>, nr: nat, r: nat, input: State): State
    requires r < nr && |w| == 4 * (nr + 1)
    decreases r
  {
    if r == 0 then AddRoundKey(input, RoundKey(w, nr))
    else InvMixColumns(AddRoundKey(InvSubBytes(InvShiftRows(InvCipherRounds(w, nr, r - 1, input))), RoundKey(w, nr - r)))
  }

  function InvCipher(w: seq<U32>, nr: nat, input: State): State
    requires 1 <= nr && |w| == 4 * (nr + 1)
  {
    AddRoundKey(InvSubBytes(InvShiftRows(InvCipherRounds(w, nr, nr - 1, input))), RoundKey(w, 0))
  }

  // ---- section 5.3.5: EqInvCipher, with the round keys in the order they are used ----

  function EqInvCipherRounds(d: seq<U32>, r: nat, input: State): State
    requires 4 * r + 4 <= |d|
    decreases r
  {
    if r == 0 then AddRoundKey(input, RoundKey(d, 0))
    else AddRoundKey(InvMixColumns(InvShiftRows(InvSubBytes(EqInvCipherRounds(d, r - 1, input)))), RoundKey(d, r))
  }

  function EqInvCipher(d: seq<U32>, nr: nat, input: State): State
    requires 1 <= nr && |d| == 4 * (nr + 1)
  {
    AddRoundKey(InvShiftRows(InvSubBytes(EqInvCipherRounds(d, nr - 1, input))), RoundKey(d, nr))
  }

  /** The schedule of section 5.3.5: round keys reversed, and inverse MixColumns applied to all
      but the first and the last. */
  predicate IsInverseSchedule(w: seq<U32>, d: seq<U32>, nr: nat)
    requires |w| == |d| == 4 * (nr + 1)
  {
    && RoundKey(d, 0) == RoundKey(w, nr)
    && RoundKey(d, nr) == RoundKey(w, 0)
    && forall r :: 0 < r < nr ==> RoundKey(d, r) == InvMixColumns(RoundKey(w, nr - r))
  }

  // ---- each transformation is undone by its inverse ----

  lemma {:induction false} ShiftRowsCommutes(s: State)
    ensures InvShiftRows(InvSubBytes(s)) == InvSubBytes(InvShiftRows(s))
    ensures InvShiftRows(ShiftRows(s)) == s && ShiftRows(InvShiftRows(s)) == s
  {
    hide Si;
  }

  lemma {:induction false} SubBytesUndone(s: State)
    ensures InvSubBytes(SubBytes(s)) == s && SubBytes(InvSubBytes(s)) == s
  {
    hide S, Si;
    SubColumnUndone(s.c0);
    SubColumnUndone(s.c1);
    SubColumnUndone(s.c2);
    SubColumnUndone(s.c3);
  }

  lemma {:induction false} SubColumnUndone(c: Column)
    ensures InvSubColumn(SubColumn(c)) == c && SubColumn(InvSubColumn(c)) == c
  {
    hide S, Si;
    SiUndoesS(c.b0);
    SiUndoesS(c.b1);
    SiUndoesS(c.b2);
    SiUndoesS(c.b3);
  }

  lemma {:induction false} XorColumnCancel(x: Column, y: Column)
    ensures XorColumn(XorColumn(x, y), y) == x
  {
    hide Xor;
    XorCancel(x.b0, y.b0);
    XorCancel(x.b1, y.b1);
    XorCancel(x.b2, y.b2);
    XorCancel(x.b3, y.b3);
  }

  lemma {:induction false} AddRoundKeyUndone(s: State, k: State)
    ensures AddRoundKey(AddRoundKey(s, k), k) == s
  {
    hide XorColumn;
    XorColumnCancel(s.c0, k.c0);
    XorColumnCancel(s.c1, k.c1);
    XorColumnCancel(s.c2, k.c2);
    XorColumnCancel(s.c3, k.c3);
  }

  lemma {:induction false} MixColumnsUndone(s: State)
    ensures InvMixColumns(MixColumns(s)) == s && MixColumns(InvMixColumns(s)) == s
  {
    hide MixColumn, InvMixColumn;
    InvMixColumnUndoes(s.c0);
    InvMixColumnUndoes(s.c1);
    InvMixColumnUndoes(s.c2);
    InvMixColumnUndoes(s.c3);
  }

  lemma {:induction false} InvMixColumnsXor(s: State, k: State)
    ensures InvMixColumns(AddRoundKey(s, k)) == AddRoundKey(InvMixColumns(s), InvMixColumns(k))
  {
    hide InvMixColumn, XorColumn;
    InvMixColumnXor(s.c0, k.c0);
    InvMixColumnXor(s.c1, k.c1);
    InvMixColumnXor(s.c2, k.c2);
    InvMixColumnXor(s.c3, k.c3);
  }

  // ---- InvCipher is the inverse of Cipher, and EqInvCipher is InvCipher ----

  /** After r rounds of InvCipher the state is what Cipher had just before the last step of its round nr - r. */
  lemma {:induction false} InvCipherRoundsUndo(w: seq<U32>, nr: nat, r: nat, input: State)
    requires r < nr && |w| == 4 * (nr + 1)
    ensures InvCipherRounds(w, nr, r, Cipher(w, nr, input)) == ShiftRows(SubBytes(CipherRounds(w, nr - 1 - r, input)))
    decreases r
  {
    hide AddRoundKey, SubBytes, InvSubBytes, ShiftRows, InvShiftRows, MixColumns, InvMixColumns, RoundKey;
    if r == 0 {
      AddRoundKeyUndone(ShiftRows(SubBytes(CipherRounds(w, nr - 1, input))), RoundKey(w, nr));
    } else {
      InvCipherRoundsUndo(w, nr, r - 1, input);
      var before := CipherRounds(w, nr - r, input);
      ShiftRowsCommutes(SubBytes(before));
      SubBytesUndone(before);
      var mixed := MixColumns(ShiftRows(SubBytes(CipherRounds(w, nr - r - 1, input))));
      AddRoundKeyUndone(mixed, RoundKey(w, nr - r));
      MixColumnsUndone(ShiftRows(SubBytes(CipherRounds(w, nr - r - 1, input))));
    }
  }

  lemma {:induction false} InvCipherUndoesCipher(w: seq<U32>, nr: nat, input: State)
    requires 1 <= nr && |w| == 4 * (nr + 1)
    ensures InvCipher(w, nr, Cipher(w, nr, input)) == input
  {
    hide AddRoundKey, SubBytes, InvSubBytes, ShiftRows, InvShiftRows, RoundKey, InvCipherRounds;
    InvCipherRoundsUndo(w, nr, nr - 1, input);
    ShiftRowsCommutes(SubBytes(CipherRounds(w, 0, input)));
    SubBytesUndone(CipherRounds(w, 0, input));
    AddRoundKeyUndone(input, RoundKey(w, 0));
  }

  /** After r rounds of Cipher the state is what InvCipher had in its round nr - 1 - r after InvSubBytes. */
  lemma {:induction false} CipherRoundsUndo(w: seq<U32>, nr: nat, r: nat, output: State)
    requires r < nr && |w| == 4 * (nr + 1)
    ensures CipherRounds(w, r, InvCipher(w, nr, output)) == InvSubBytes(InvShiftRows(InvCipherRounds(w, nr, nr - 1 - r, output)))
    decreases r
  {
    hide AddRoundKey, SubBytes, InvSubBytes, ShiftRows, InvShiftRows, MixColumns, InvMixColumns, RoundKey;
    var here := InvSubBytes(InvShiftRows(InvCipherRounds(w, nr, nr - 1 - r, output)));
    AddRoundKeyUndone(here, RoundKey(w, r));
    if r > 0 {
      CipherRoundsUndo(w, nr, r - 1, output);
      var before := InvCipherRounds(w, nr, nr - r, output);
      SubBytesUndone(InvShiftRows(before));
      ShiftRowsCommutes(before);
      MixColumnsUndone(AddRoundKey(here, RoundKey(w, r)));
    }
  }

  lemma {:induction false} CipherUndoesInvCipher(w: seq<U32>, nr: nat, output: State)
    requires 1 <= nr && |w| == 4 * (nr + 1)
    ensures Cipher(w, nr, InvCipher(w, nr, output)) == output
  {
    hide AddRoundKey, SubBytes, InvSubBytes, ShiftRows, InvShiftRows, RoundKey, CipherRounds, InvCipher;
    CipherRoundsUndo(w, nr, nr - 1, output);
    var last := InvCipherRounds(w, nr, 0, output);
    SubBytesUndone(InvShiftRows(last));
    ShiftRowsCommutes(last);
    AddRoundKeyUndone(output, RoundKey(w, nr));
  }

  lemma {:induction false} EqInvCipherRoundsSame(w: seq<U32>, d: seq<U32>, nr: nat, r: nat, input: State)
    requires r < nr && |w| == |d| == 4 * (nr + 1) && IsInverseSchedule(w, d, nr)
    ensures EqInvCipherRounds(d, r, input) == InvCipherRounds(w, nr, r, input)
    decreases r
  {
    hide AddRoundKey, InvSubBytes, InvShiftRows, InvMixColumns, RoundKey;
    if r > 0 {
      EqInvCipherRoundsSame(w, d, nr, r - 1, input);
      var before := InvCipherRounds(w, nr, r - 1, input);
      ShiftRowsCommutes(before);
      InvMixColumnsXor(InvSubBytes(InvShiftRows(before)), RoundKey(w, nr - r));
    }
  }

  lemma {:induction false} EqInvCipherIsInvCipher(w: seq<U32>, d: seq<U32>, nr: nat, input: State)
    requires 1 <= nr && |w| == |d| == 4 * (nr + 1) && IsInverseSchedule(w, d, nr)
    ensures EqInvCipher(d, nr, input) == InvCipher(w, nr, input)
  {
    hide AddRoundKey, InvSubBytes, InvShiftRows, InvMixColumns, RoundKey;
    EqInvCipherRoundsSame(w, d, nr, nr - 1, input);
    ShiftRowsCommutes(InvCipherRounds(w, nr, nr - 1, input));
  }
}
