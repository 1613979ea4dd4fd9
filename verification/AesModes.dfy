/** aes.cxx: the 128-bit AES object, counter mode and f8 mode. */
module AesModes {
  import opened Gf256
  import opened AesTables
  import opened Fips197
  import Rijndael

  const BLOCK_SIZE := 16
  const NB_ROUND := 10

  type Block = b: seq<bv8> | |b| == 16 witness [0, 0, 0, 0, 0, 0, 0, 0, 0, 0, 0, 0, 0, 0, 0, 0]

  /** One block under a 128-bit key, as FIPS 197 defines it. */
  function EncryptBlock(key: Block, b: Block): Block {
    Rijndael.BlockOfState(Cipher(KeyExpansion(key, 4), NB_ROUND, Rijndael.StateOfBlock(b)))
  }

  function XorBytes(a: seq<bv8>, b: seq<bv8>): (c: seq<bv8>)
    requires |a| == |b|
    ensures |c| == |a|
  {
    seq(|a|, i requires 0 <= i < |a| => Xor(a[i], b[i]))
  }

  lemma {:induction false} XorBytesTwice(a: seq<bv8>, b: seq<bv8>)
    requires |a| == |b|
    ensures XorBytes(XorBytes(a, b), b) == a
  {
    hide Xor;
    forall i | 0 <= i < |a|
      ensures XorBytes(XorBytes(a, b), b)[i] == a[i]
    {
      XorCancel(a[i], b[i]);
    }
  }

  // ---- keystreams: byte i of a keystream is byte i % 16 of its block i / 16 ----

  /** The first n bytes of the keystream whose block j is blocks(j). */
  function Stream(blocks: nat -> Block, n: nat): (s: seq<bv8>)
    ensures |s| == n
  {
    seq(n, i requires 0 <= i < n => StreamByte(blocks, i))
  }

  function StreamByte(blocks: nat -> Block, i: nat): bv8 { blocks(i / BLOCK_SIZE)[i % BLOCK_SIZE] }

  /** A shorter keystream is a prefix of a longer one. */
  lemma {:induction false} StreamPrefix(blocks: nat -> Block, m: nat, n: nat)
    requires m <= n
    ensures Stream(blocks, m) == Stream(blocks, n)[..m]
  {
  }

  // ---- counter mode ----

  const TWO32 := 0x1_0000_0000

  /** The value of an unsigned 32-bit variable. */
  function Word32(n: nat): bv32 { (n % TWO32) as bv32 }

  /** The cipher input for counter value c: the first 14 bytes of the IV and the low 16 bits of c. */
  function CtrInput(iv: Block, c: bv32): Block {
    iv[..14] + [((c & 0xff00) >> 8) as bv8, (c & 0xff) as bv8]
  }

  function CtrBlocks(key: Block, iv: Block): nat -> Block {
    c => EncryptBlock(key, CtrInput(iv, Word32(c)))
  }

  /** Counter mode of a message. */
  function Ctr(key: Block, iv: Block, data: seq<bv8>): (out: seq<bv8>)
    ensures |out| == |data|
  {
    XorBytes(data, Stream(CtrBlocks(key, iv), |data|))
  }

  /** Decryption is encryption again. */
  lemma {:induction false} CtrTwice(key: Block, iv: Block, data: seq<bv8>)
    ensures Ctr(key, iv, Ctr(key, iv, data)) == data
  {
    hide EncryptBlock;
    XorBytesTwice(data, Stream(CtrBlocks(key, iv), |data|));
  }

  lemma {:induction false} LowHalves(c: bv32, d: bv32)
    ensures ((c & 0xff00) >> 8) as bv8 == ((d & 0xff00) >> 8) as bv8 && (c & 0xff) as bv8 == (d & 0xff) as bv8 <==> c & 0xffff == d & 0xffff
  {
  }

  /** The counter has 16 bits: two counter values give the same cipher input exactly when they agree
      in the low 16 bits, and the last two bytes of the IV play no part. */
  lemma {:induction false} CtrInputsCollide(iv: Block, iv2: Block, c: bv32, d: bv32)
    ensures CtrInput(iv, c) == CtrInput(iv2, d) <==> iv[..14] == iv2[..14] && c & 0xffff == d & 0xffff
  {
    var x, y := CtrInput(iv, c), CtrInput(iv2, d);
    assert x[..14] == iv[..14] && y[..14] == iv2[..14];
    assert x[14] == ((c & 0xff00) >> 8) as bv8 && x[15] == (c & 0xff) as bv8;
    assert y[14] == ((d & 0xff00) >> 8) as bv8 && y[15] == (d & 0xff) as bv8;
    LowHalves(c, d);
  }

  // ---- f8 mode, section 4.1.2.2 of RFC 3711 ----

  const Zeros: Block := [0, 0, 0, 0, 0, 0, 0, 0, 0, 0, 0, 0, 0, 0, 0, 0]

  /** The 32-bit block counter as a 128-bit number, most significant byte first. */
  function CounterBlock(j: bv32): Block {
    var c := ColumnOf(U32(j));
    [0, 0, 0, 0, 0, 0, 0, 0, 0, 0, 0, 0, c.b0, c.b1, c.b2, c.b3]
  }

  /** The keystream block that follows s when the counter is j. */
  function F8Next(key: Block, ivAccent: Block, s: Block, j: nat): Block {
    EncryptBlock(key, XorBytes(XorBytes(s, ivAccent), CounterBlock(Word32(j))))
  }

  /** S(j - 1): the keystream block before block j, with S(-1) = 0. */
  function F8Before(key: Block, ivAccent: Block, j: nat): Block
    decreases j
  {
    if j == 0 then Zeros
    else F8Next(key, ivAccent, F8Before(key, ivAccent, j - 1), j - 1)
  }

  function F8Keystream(key: Block, ivAccent: Block): nat -> Block {
    j => F8Before(key, ivAccent, j + 1)
  }

  function Repeat(b: bv8, n: nat): (s: seq<bv8>)
    ensures |s| == n
  {
    seq(n, i requires 0 <= i < n => b)
  }

  lemma {:induction false} F8Start(key: Block, ivAccent: Block)
    ensures F8Before(key, ivAccent, 0) == Zeros
  {
  }

  lemma {:induction false} F8Step(key: Block, ivAccent: Block, j: nat)
    ensures F8Keystream(key, ivAccent)(j) == F8Before(key, ivAccent, j + 1) == F8Next(key, ivAccent, F8Before(key, ivAccent, j), j % TWO32)
  {
    hide EncryptBlock, XorBytes, CounterBlock;
    assert (j % TWO32) % TWO32 == j % TWO32;
  }

  /** m = k_s || 0x55 ... 0x55, as long as the key. */
  function SaltMask(salt: seq<bv8>, keyLen: nat): (m: seq<bv8>)
    requires |salt| <= keyLen
    ensures |m| == keyLen
  {
    salt + Repeat(0x55, keyLen - |salt|)
  }

  /** IV' = E(k_e XOR m, IV). */
  function IvAccent(origKey: Block, salt: seq<bv8>, iv: Block): Block
    requires |salt| <= 16
  {
    EncryptBlock(XorBytes(origKey, SaltMask(salt, 16)), iv)
  }

  function F8(key: Block, origKey: Block, salt: seq<bv8>, iv: Block, data: seq<bv8>): (out: seq<bv8>)
    requires |salt| <= 16
    ensures |out| == |data|
  {
    XorBytes(data, Stream(F8Keystream(key, IvAccent(origKey, salt, iv)), |data|))
  }

  lemma {:induction false} F8Twice(key: Block, origKey: Block, salt: seq<bv8>, iv: Block, data: seq<bv8>)
    requires |salt| <= 16
    ensures F8(key, origKey, salt, iv, F8(key, origKey, salt, iv, data)) == data
  {
    hide F8Before, IvAccent;
    XorBytesTwice(data, Stream(F8Keystream(key, IvAccent(origKey, salt, iv)), |data|));
  }

  // ---- the AES object ----

  /** F8_CIPHER_CTX. */
  class F8Context {
    const ivAccent: array<bv8>
    const s: array<bv8>
    /** A 32-bit counter. */
    var j: nat

    ghost predicate Valid()
      reads this
    {
      ivAccent != s && ivAccent.Length == s.Length == BLOCK_SIZE && j < TWO32
    }

    constructor ()
      ensures Valid() && fresh(ivAccent) && fresh(s) && ivAccent != s && ivAccent.Length == s.Length == BLOCK_SIZE
      ensures j == 0 && s[..] == Zeros
    {
      ivAccent := new bv8[BLOCK_SIZE];
      s := new bv8[BLOCK_SIZE](_ => 0);
      j := 0;
    }
  }

  class AES {
    /** The expanded key, as m_key holds it. */
    var roundKeys: seq<U32>
    ghost var key: Block

    ghost predicate Valid()
      reads this
    {
      roundKeys == KeyExpansion(key, 4)
    }

    constructor (cipherKey: Block)
      ensures Valid() && key == cipherKey
    {
      hide KeyExpansion;
      var m_key := new U32[4 * (NB_ROUND + 1)](_ => U32(0));
      var nr := Rijndael.KeySetupEnc(m_key, cipherKey, 128);
      roundKeys := m_key[..];
      key := cipherKey;
      new;
      assert cipherKey[..16] == cipherKey;
      assert m_key[..] == m_key[..44];
    }

    /** Input and output may be the same place. */
    method Encrypt(input: array<bv8>, i: nat, output: array<bv8>, o: nat)
      requires Valid()
      requires i + BLOCK_SIZE <= input.Length && o + BLOCK_SIZE <= output.Length
      modifies output
      ensures output[o..o + BLOCK_SIZE] == EncryptBlock(key, old(input[i..i + BLOCK_SIZE]))
      ensures forall k :: 0 <= k < output.Length && !(o <= k < o + BLOCK_SIZE) ==> output[k] == old(output[k])
    {
      hide KeyExpansion, Cipher;
      assert |roundKeys| == 44 by { KeyExpansionLength(key); }
      assert roundKeys[..44] == roundKeys;
      Rijndael.Encrypt(roundKeys, NB_ROUND, input, i, output, o);
    }

    /** Block ctr of the keystream is written at offset o. */
    method CtrBlock(aesInput: array<bv8>, ghost iv: Block, ctr: nat, output: array<bv8>, o: nat)
      requires Valid() && aesInput.Length == BLOCK_SIZE && aesInput[..14] == iv[..14]
      requires aesInput != output && o + BLOCK_SIZE <= output.Length
      modifies aesInput, output
      ensures aesInput[..14] == iv[..14]
      ensures forall k :: o <= k < o + BLOCK_SIZE ==> output[k] == StreamByte(CtrBlocks(key, iv), BLOCK_SIZE * ctr + (k - o))
      ensures forall k :: 0 <= k < output.Length && !(o <= k < o + BLOCK_SIZE) ==> output[k] == old(output[k])
    {
      hide EncryptBlock, StreamByte;
      SetCounter(aesInput, iv, Word32(ctr));
      Encrypt(aesInput, 0, output, o);
      assert aesInput[0..16] == aesInput[..];
      BlockBytes(CtrBlocks(key, iv), ctr, output[o..o + BLOCK_SIZE]);
    }

    /** get_ctr_cipher_stream: fills output[..length] with the keystream. */
    method GetCtrCipherStream(output: array<bv8>, length: nat, iv: Block)
      requires Valid() && length <= output.Length
      modifies output
      ensures output[..length] == Stream(CtrBlocks(key, iv), length)
      ensures forall k :: length <= k < output.Length ==> output[k] == old(output[k])
    {
      hide CtrBlocks, StreamByte;
      var aesInput := new bv8[BLOCK_SIZE];
      var temp := new bv8[BLOCK_SIZE];
      CopyPrefix(iv, aesInput, 14);
      var ctr := 0;
      while ctr < length / BLOCK_SIZE
        invariant 0 <= ctr <= length / BLOCK_SIZE
        invariant aesInput[..14] == iv[..14]
        invariant forall k :: 0 <= k < BLOCK_SIZE * ctr ==> output[k] == StreamByte(CtrBlocks(key, iv), k)
        invariant forall k :: BLOCK_SIZE * ctr <= k < output.Length ==> output[k] == old(output[k])
      {
        CtrBlock(aesInput, iv, ctr, output, BLOCK_SIZE * ctr);
        ctr := ctr + 1;
      }
      CtrBlock(aesInput, iv, ctr, temp, 0);
      CopyInto(temp, length % BLOCK_SIZE, output, BLOCK_SIZE * ctr);
    }

    /** ctr_encrypt into a separate buffer; output may also be the input array. */
    method CtrEncrypt(input: array<bv8>, inputLength: nat, output: array<bv8>, iv: Block)
      requires Valid() && inputLength <= input.Length && inputLength <= output.Length
      modifies output
      ensures output[..inputLength] == Ctr(key, iv, old(input[..inputLength]))
      ensures forall k :: inputLength <= k < output.Length ==> output[k] == old(output[k])
    {
      hide CtrBlocks, Stream, Xor;
      var cipherStream := new bv8[inputLength];
      GetCtrCipherStream(cipherStream, inputLength, iv);
      assert cipherStream[..inputLength] == cipherStream[..];
      for i := 0 to inputLength
        invariant cipherStream[..] == Stream(CtrBlocks(key, iv), inputLength)
        invariant forall k :: i <= k < input.Length ==> input[k] == old(input[k])
        invariant forall k :: 0 <= k < i ==> output[k] == Xor(old(input[k]), cipherStream[k])
        invariant forall k :: inputLength <= k < output.Length ==> output[k] == old(output[k])
      {
        output[i] := Xor(input[i], cipherStream[i]);
      }
      assert output[..inputLength] == XorBytes(old(input[..inputLength]), cipherStream[..]);
    }

    /** ctr_encrypt in place. */
    method CtrEncryptInPlace(data: array<bv8>, dataLength: nat, iv: Block)
      requires Valid() && dataLength <= data.Length
      modifies data
      ensures data[..dataLength] == Ctr(key, iv, old(data[..dataLength]))
      ensures forall k :: dataLength <= k < data.Length ==> data[k] == old(data[k])
    {
      hide CtrBlocks, Stream, Xor;
      var cipherStream := new bv8[dataLength];
      GetCtrCipherStream(cipherStream, dataLength, iv);
      assert cipherStream[..dataLength] == cipherStream[..];
      for i := 0 to dataLength
        invariant cipherStream[..] == Stream(CtrBlocks(key, iv), dataLength)
        invariant forall k :: i <= k < data.Length ==> data[k] == old(data[k])
        invariant forall k :: 0 <= k < i ==> data[k] == Xor(old(data[k]), cipherStream[k])
      {
        data[i] := Xor(data[i], cipherStream[i]);
      }
      assert data[..dataLength] == XorBytes(old(data[..dataLength]), cipherStream[..]);
    }

    /** processBlock: advances the f8 context by one block and encrypts up to 16 bytes with it. */
    method ProcessBlock(ctx: F8Context, input: array<bv8>, o: nat, length: nat, output: array<bv8>)
      requires Valid() && ctx.Valid() && length <= BLOCK_SIZE
      requires o + length <= input.Length && o + length <= output.Length
      requires {input, output} !! {ctx.ivAccent, ctx.s}
      modifies ctx, ctx.s, output
      ensures ctx.Valid() && ctx.ivAccent[..] == old(ctx.ivAccent[..])
      ensures ctx.s[..] == F8Next(key, ctx.ivAccent[..], old(ctx.s[..]), old(ctx.j))
      ensures ctx.j == (old(ctx.j) + 1) % TWO32
      ensures forall k :: o <= k < o + length ==> output[k] == Xor(old(input[k]), ctx.s[k - o])
      ensures forall k :: 0 <= k < output.Length && !(o <= k < o + length) ==> output[k] == old(output[k])
    {
      hide EncryptBlock, XorBytes, Xor;
      ghost var s0, iv := ctx.s[..], ctx.ivAccent[..];
      XorInto(ctx.s, ctx.ivAccent);
      AddCounter(ctx.s, Word32(ctx.j), XorBytes(s0, iv));
      ctx.j := (ctx.j + 1) % TWO32;
      ghost var mixed := ctx.s[..];
      Encrypt(ctx.s, 0, ctx.s, 0);
      assert mixed[0..16] == mixed && ctx.s[0..16] == ctx.s[..];
      ApplyKeystream(ctx.s, input, o, length, output);
    }

    /** processBlock as block j of a message. */
    method F8Block(ctx: F8Context, input: array<bv8>, o: nat, length: nat, output: array<bv8>, ghost ivAccent: Block, ghost j: nat)
      requires Valid() && ctx.Valid() && length <= BLOCK_SIZE && o == BLOCK_SIZE * j
      requires o + length <= input.Length && o + length <= output.Length
      requires {input, output} !! {ctx.ivAccent, ctx.s}
      requires ctx.ivAccent[..] == ivAccent && ctx.s[..] == F8Before(key, ivAccent, j) && ctx.j == j % TWO32
      modifies ctx, ctx.s, output
      ensures ctx.Valid() && ctx.ivAccent[..] == ivAccent && ctx.s[..] == F8Before(key, ivAccent, j + 1) && ctx.j == (j + 1) % TWO32
      ensures forall k :: o <= k < o + length ==> output[k] == Xor(old(input[k]), StreamByte(F8Keystream(key, ivAccent), k))
      ensures forall k :: 0 <= k < output.Length && !(o <= k < o + length) ==> output[k] == old(output[k])
    {
      hide F8Next, Xor, F8Before, F8Keystream, StreamByte;
      F8Step(key, ivAccent, j);
      ProcessBlock(ctx, input, o, length, output);
      BlockBytes(F8Keystream(key, ivAccent), j, ctx.s[..]);
    }

    /** The block loop of f8_encrypt, from a fresh context. */
    method F8Blocks(ctx: F8Context, input: array<bv8>, inLength: nat, output: array<bv8>, ghost ivAccent: Block)
      requires Valid() && ctx.Valid() && inLength <= input.Length && inLength <= output.Length
      requires {input, output} !! {ctx.ivAccent, ctx.s}
      requires ctx.ivAccent[..] == ivAccent && ctx.s[..] == Zeros && ctx.j == 0
      modifies ctx, ctx.s, output
      ensures output[..inLength] == XorBytes(old(input[..inLength]), Stream(F8Keystream(key, ivAccent), inLength))
      ensures forall k :: inLength <= k < output.Length ==> output[k] == old(output[k])
    {
      hide F8Next, Xor, F8Before, F8Keystream, StreamByte;
      F8Start(key, ivAccent);
      var offset, left := 0, inLength;
      ghost var j := 0;
      while left >= BLOCK_SIZE
        invariant 0 <= left && offset == BLOCK_SIZE * j && offset + left == inLength
        invariant ctx.Valid() && ctx.ivAccent[..] == ivAccent && ctx.j == j % TWO32
        invariant ctx.s[..] == F8Before(key, ivAccent, j)
        invariant forall k :: offset <= k < input.Length ==> input[k] == old(input[k])
        invariant forall k :: 0 <= k < offset ==> output[k] == Xor(old(input[k]), StreamByte(F8Keystream(key, ivAccent), k))
        invariant forall k :: offset <= k < output.Length ==> output[k] == old(output[k])
      {
        F8Block(ctx, input, offset, BLOCK_SIZE, output, ivAccent, j);
        left := left - BLOCK_SIZE;
        offset := offset + BLOCK_SIZE;
        j := j + 1;
      }
      if left > 0 {
        F8Block(ctx, input, offset, left, output, ivAccent, j);
      }
    }

    /** f8_encrypt; output may also be the input array. */
    method F8Encrypt(input: array<bv8>, inLength: nat, output: array<bv8>, iv: array<bv8>, origKey: Block, salt: seq<bv8>)
      requires Valid() && inLength <= input.Length && inLength <= output.Length && iv.Length == BLOCK_SIZE
      requires |salt| <= BLOCK_SIZE
      modifies output
      ensures output[..inLength] == F8(key, origKey, salt, old(iv[..]), old(input[..inLength]))
      ensures forall k :: inLength <= k < output.Length ==> output[k] == old(output[k])
    {
      hide EncryptBlock, XorBytes, Stream, F8Keystream;
      var ctx := new F8Context();
      var maskedKey := MaskKey(origKey, salt);
      var aes := new AES(maskedKey[..]);
      aes.Encrypt(iv, 0, ctx.ivAccent, 0);
      assert iv[0..16] == iv[..] && ctx.ivAccent[0..16] == ctx.ivAccent[..];
      F8Blocks(ctx, input, inLength, output, IvAccent(origKey, salt, iv[..]));
    }

    /** The overload that encrypts in place. */
    method F8EncryptInPlace(data: array<bv8>, dataLength: nat, iv: array<bv8>, origKey: Block, salt: seq<bv8>)
      requires Valid() && dataLength <= data.Length && iv.Length == BLOCK_SIZE && |salt| <= BLOCK_SIZE
      modifies data
      ensures data[..dataLength] == F8(key, origKey, salt, old(iv[..]), old(data[..dataLength]))
      ensures forall k :: dataLength <= k < data.Length ==> data[k] == old(data[k])
    {
      F8Encrypt(data, dataLength, data, iv, origKey, salt);
    }
  }

  /** S becomes S XOR IV'. */
  method XorInto(s: array<bv8>, iv: array<bv8>)
    requires s != iv && s.Length == iv.Length == BLOCK_SIZE
    modifies s
    ensures s[..] == XorBytes(old(s[..]), iv[..])
  {
    hide Xor;
    for i := 0 to BLOCK_SIZE
      invariant forall k :: 0 <= k < i ==> s[k] == Xor(old(s[k]), iv[k])
      invariant forall k :: i <= k < BLOCK_SIZE ==> s[k] == old(s[k])
    {
      s[i] := Xor(s[i], iv[i]);
    }
  }

  /** The text is XORed with the key stream block. */
  method ApplyKeystream(s: array<bv8>, input: array<bv8>, o: nat, length: nat, output: array<bv8>)
    requires s.Length == BLOCK_SIZE && length <= BLOCK_SIZE && s != input && s != output
    requires o + length <= input.Length && o + length <= output.Length
    modifies output
    ensures forall k :: o <= k < o + length ==> output[k] == Xor(old(input[k]), s[k - o])
    ensures forall k :: 0 <= k < output.Length && !(o <= k < o + length) ==> output[k] == old(output[k])
  {
    hide Xor;
    for i := 0 to length
      invariant forall k :: o + i <= k < o + length ==> input[k] == old(input[k])
      invariant forall k :: o <= k < o + i ==> output[k] == Xor(old(input[k]), s[k - o])
      invariant forall k :: 0 <= k < output.Length && !(o <= k < o + i) ==> output[k] == old(output[k])
    {
      output[o + i] := Xor(input[o + i], s[i]);
    }
  }

  /** The special key for IV': the session key XORed with the padded salt. */
  method MaskKey(origKey: Block, salt: seq<bv8>) returns (maskedKey: array<bv8>)
    requires |salt| <= BLOCK_SIZE
    ensures fresh(maskedKey) && maskedKey[..] == XorBytes(origKey, SaltMask(salt, BLOCK_SIZE))
  {
    hide Xor;
    var saltMask := new bv8[BLOCK_SIZE];
    CopyPrefix(salt, saltMask, |salt|);
    for i := |salt| to BLOCK_SIZE
      invariant forall k :: 0 <= k < i ==> saltMask[k] == if k < |salt| then salt[k] else 0x55
    {
      saltMask[i] := 0x55;
    }
    maskedKey := new bv8[BLOCK_SIZE];
    for i := 0 to BLOCK_SIZE
      invariant forall k :: 0 <= k < BLOCK_SIZE ==> saltMask[k] == if k < |salt| then salt[k] else 0x55
      invariant forall k :: 0 <= k < i ==> maskedKey[k] == Xor(origKey[k], saltMask[k])
    {
      maskedKey[i] := Xor(origKey[i], saltMask[i]);
    }
  }

  /** ui32p[3] ^= hton32(J). */
  method AddCounter(s: array<bv8>, j: bv32, ghost before: Block)
    requires s.Length == BLOCK_SIZE && s[..] == before
    modifies s
    ensures s[..] == XorBytes(before, CounterBlock(j))
  {
    hide Xor, ColumnOf;
    var c := ColumnOf(U32(j));
    s[12] := Xor(s[12], c.b0);
    s[13] := Xor(s[13], c.b1);
    s[14] := Xor(s[14], c.b2);
    s[15] := Xor(s[15], c.b3);
    forall k | 0 <= k < 12
      ensures Xor(before[k], 0) == before[k]
    {
      XorCancel(before[k], 0);
    }
  }

  /** The two counter bytes of the cipher input are set. */
  method SetCounter(aesInput: array<bv8>, ghost iv: Block, input: bv32)
    requires aesInput.Length == BLOCK_SIZE && aesInput[..14] == iv[..14]
    modifies aesInput
    ensures aesInput[..] == CtrInput(iv, input)
  {
    aesInput[14] := ((input & 0xff00) >> 8) as bv8;
    aesInput[15] := (input & 0xff) as bv8;
  }

  /** memcpy into the start of an array. */
  method CopyPrefix(src: seq<bv8>, dst: array<bv8>, n: nat)
    requires n <= |src| && n <= dst.Length
    modifies dst
    ensures dst[..n] == src[..n]
  {
    for i := 0 to n
      invariant dst[..i] == src[..i]
    {
      dst[i] := src[i];
    }
  }

  /** memcpy of the first n bytes of one array to offset o of another. */
  method CopyInto(src: array<bv8>, n: nat, dst: array<bv8>, o: nat)
    requires src != dst && n <= src.Length && o + n <= dst.Length
    modifies dst
    ensures forall k :: o <= k < o + n ==> dst[k] == src[k - o]
    ensures forall k :: 0 <= k < dst.Length && !(o <= k < o + n) ==> dst[k] == old(dst[k])
  {
    for i := 0 to n
      invariant forall k :: o <= k < o + i ==> dst[k] == src[k - o]
      invariant forall k :: 0 <= k < dst.Length && !(o <= k < o + i) ==> dst[k] == old(dst[k])
    {
      dst[o + i] := src[i];
    }
  }

  lemma {:induction false} BlockBytes(blocks: nat -> Block, j: nat, b: seq<bv8>)
    requires b == blocks(j)
    ensures forall k :: 16 * j <= k < 16 * j + 16 ==> StreamByte(blocks, k) == b[k - 16 * j]
  {
  }

  lemma {:induction false} KeyExpansionLength(key: Block)
    ensures |KeyExpansion(key, 4)| == 44
  {
  }
}
