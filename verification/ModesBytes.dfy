/** Counter mode and f8 mode byte by byte, from the cipher of FIPS 197. */
module ModesBytes {
  import opened Gf256
  import opened AesTables
  import opened Fips197
  import Rijndael
  import opened AesModes

  /** AES with a key of 128 bits: ten rounds. */
  function Aes(key: Block, b: Block): Block {
    Rijndael.BlockOfState(Cipher(KeyExpansion(key, 4), 10, Rijndael.StateOfBlock(b)))
  }

  // ---- counter mode ----

  /** The first 14 bytes of the IV, and behind them the low 16 bits of the number of the block, the higher byte first. */
  ghost predicate IsCounterInput(b: Block, iv: Block, j: nat) {
    b[..14] == iv[..14] && (b[14] as bv32 << 8) | (b[15] as bv32) == Word32(j) & 0xffff
  }

  lemma {:induction false} CounterInput(iv: Block, j: nat)
    ensures IsCounterInput(CtrInput(iv, Word32(j)), iv, j)
  {
    hide Word32;
    var b, c := CtrInput(iv, Word32(j)), Word32(j);
    assert b[..14] == iv[..14];
    assert b[14] == ((c & 0xff00) >> 8) as bv8 && b[15] == (c & 0xff) as bv8;
    TwoHalves(c);
  }

  lemma {:induction false} TwoHalves(c: bv32)
    ensures (((c & 0xff00) >> 8) as bv8 as bv32 << 8) | ((c & 0xff) as bv8 as bv32) == c & 0xffff
  {
  }

  lemma {:induction false} SameHalves(a: bv8, b: bv8, c: bv8, d: bv8)
    requires (a as bv32 << 8) | (b as bv32) == (c as bv32 << 8) | (d as bv32)
    ensures a == c && b == d
  {
  }

  lemma {:induction false} CounterInputUnique(a: Block, b: Block, iv: Block, j: nat)
    requires IsCounterInput(a, iv, j) && IsCounterInput(b, iv, j)
    ensures a == b
  {
    hide Word32;
    SameHalves(a[14], a[15], b[14], b[15]);
    assert a == a[..14] + [a[14], a[15]];
    assert b == b[..14] + [b[14], b[15]];
  }

  /** Byte i of the text is XORed with byte i % 16 of the block encrypted for i / 16. */
  lemma {:induction false} CtrByte(key: Block, iv: Block, data: seq<bv8>, b: Block, i: nat)
    requires i < |data| && IsCounterInput(b, iv, i / 16)
    ensures Ctr(key, iv, data)[i] == Xor(data[i], Aes(key, b)[i % 16])
  {
    hide Cipher, KeyExpansion, Xor, Word32;
    CounterInput(iv, i / 16);
    CounterInputUnique(b, CtrInput(iv, Word32(i / 16)), iv, i / 16);
  }

  // ---- f8 mode ----

  /** Byte k of a number of 32 bits, the highest byte first. */
  function CounterByte(c: bv32, k: nat): bv8 {
    match k case 0 => (c >> 24) as bv8 case 1 => ((c >> 16) & 0xff) as bv8 case 2 => ((c >> 8) & 0xff) as bv8 case _ => (c & 0xff) as bv8
  }

  /** What is encrypted for block j: the block before it, IV', and j in the last four bytes. */
  ghost predicate IsF8Input(b: Block, before: Block, ivAccent: Block, j: nat) {
    forall k :: 0 <= k < 16 ==> b[k] == Xor(Xor(before[k], ivAccent[k]), if k < 12 then 0 else CounterByte(Word32(j), k - 12))
  }

  /** The key for IV': the session key XORed with the salt and 0x55 behind it. */
  ghost predicate IsMaskedKey(m: Block, origKey: Block, salt: seq<bv8>) {
    forall k :: 0 <= k < 16 ==> m[k] == Xor(origKey[k], if k < |salt| then salt[k] else 0x55)
  }

  /** The blocks of a keystream: zeros, and each other one from the one before it. */
  ghost predicate IsF8Stream(s: seq<Block>, inputs: seq<Block>, key: Block, ivAccent: Block) {
    |s| == |inputs| + 1 && (forall k :: 0 <= k < 16 ==> s[0][k] == 0) &&
    forall j :: 0 <= j < |inputs| ==> IsF8Input(inputs[j], s[j], ivAccent, j) && s[j + 1] == Aes(key, inputs[j])
  }

  lemma {:induction false} F8InputIs(b: Block, before: Block, ivAccent: Block, j: nat)
    requires IsF8Input(b, before, ivAccent, j)
    ensures b == XorBytes(XorBytes(before, ivAccent), CounterBlock(Word32(j)))
  {
    hide Xor, Word32;
    var c := CounterBlock(Word32(j));
    forall k | 0 <= k < 16
      ensures c[k] == if k < 12 then 0 else CounterByte(Word32(j), k - 12)
    {
    }
    assert forall k :: 0 <= k < 16 ==> b[k] == XorBytes(XorBytes(before, ivAccent), c)[k];
  }

  lemma {:induction false} F8NextIs(key: Block, ivAccent: Block, before: Block, b: Block, j: nat)
    requires IsF8Input(b, before, ivAccent, j)
    ensures F8Before(key, ivAccent, j) == before ==> F8Before(key, ivAccent, j + 1) == Aes(key, b)
  {
    hide Cipher, KeyExpansion, XorBytes, CounterBlock, Word32;
    F8InputIs(b, before, ivAccent, j);
  }

  lemma {:induction false} ZeroBlock(b: Block)
    requires forall k :: 0 <= k < 16 ==> b[k] == 0
    ensures b == Zeros
  {
    assert forall k :: 0 <= k < 16 ==> b[k] == Zeros[k];
  }

  lemma {:induction false} F8StreamIs(s: seq<Block>, inputs: seq<Block>, key: Block, ivAccent: Block, j: nat)
    requires IsF8Stream(s, inputs, key, ivAccent) && j < |s|
    ensures F8Before(key, ivAccent, j) == s[j]
  {
    hide Aes, IsF8Input, F8Before;
    if j == 0 {
      ZeroBlock(s[0]);
      F8Start(key, ivAccent);
    } else {
      F8StreamIs(s, inputs, key, ivAccent, j - 1);
      F8NextIs(key, ivAccent, s[j - 1], inputs[j - 1], j - 1);
    }
  }

  /** Byte i of the text is XORed with byte i % 16 of block i / 16 of the keystream. */
  lemma {:induction false} F8Byte(key: Block, origKey: Block, salt: seq<bv8>, iv: Block, data: seq<bv8>, m: Block, s: seq<Block>, inputs: seq<Block>,
                                  i: nat)
    requires |salt| <= 16 && IsMaskedKey(m, origKey, salt) && IsF8Stream(s, inputs, key, Aes(m, iv)) && i < |data| && i / 16 < |inputs|
    ensures F8(key, origKey, salt, iv, data)[i] == Xor(data[i], s[i / 16 + 1][i % 16])
  {
    hide Cipher, KeyExpansion, Xor, F8Before;
    var mask := SaltMask(salt, 16);
    assert forall k :: 0 <= k < 16 ==> mask[k] == if k < |salt| then salt[k] else 0x55;
    assert m == XorBytes(origKey, mask);
    F8StreamIs(s, inputs, key, Aes(m, iv), i / 16 + 1);
  }
}
