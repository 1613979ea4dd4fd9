/** The MIKEY pseudo-random function and the keys derived with it: KeyAgreement.cxx, p, prf and keyDeriv. */
module KeyDerivation {
  import opened Bytes
  import opened MikeyCrypto
  import Rfc3830

  const PRF_KEY_CHUNK_LENGTH := 32
  const DEFAULT_TGK_LENGTH := 192

  // ---- P(s, label, m), section 4.1.2 of RFC 3830 ----

  /** A_i, with A_0 = label. */
  function A(hmac: Hmac, s: seq<byte>, lbl: seq<byte>, i: nat): seq<byte>
    decreases i, 0
  {
    if i == 0 then lbl else hmac(s, A(hmac, s, lbl, i - 1))
  }

  function P(hmac: Hmac, s: seq<byte>, lbl: seq<byte>, m: nat): (r: seq<byte>)
    ensures |r| == SHA_DIGEST_SIZE * m
    decreases m, 0
  {
    if m == 0 then [] else P(hmac, s, lbl, m - 1) + hmac(s, A(hmac, s, lbl, m) + lbl)
  }

  /** hmac_sha1 with its result stored at an offset of an array, which may hold the message. */
  method HmacSha1(hmac: Hmac, key: seq<byte>, message: seq<byte>, output: array<byte>, o: nat)
    requires o + SHA_DIGEST_SIZE <= output.Length
    modifies output
    ensures output[o..o + SHA_DIGEST_SIZE] == hmac(key, message)
    ensures forall k :: 0 <= k < output.Length && !(o <= k < o + SHA_DIGEST_SIZE) ==> output[k] == old(output[k])
  {
    var digest := hmac(key, message);
    for k := 0 to SHA_DIGEST_SIZE
      invariant forall j :: 0 <= j < k ==> output[o + j] == digest[j]
      invariant forall j :: 0 <= j < output.Length && !(o <= j < o + k) ==> output[j] == old(output[j])
    {
      output[o + k] := digest[k];
    }
  }

  /** p(): A_i overwrites A_(i-1) in the HMAC input, whose tail holds the label throughout. */
  method ComputeP(hmac: Hmac, s: seq<byte>, lbl: seq<byte>, m: nat, output: array<byte>)
    requires m >= 1 && SHA_DIGEST_SIZE * m <= output.Length
    modifies output
    ensures output[..SHA_DIGEST_SIZE * m] == P(hmac, s, lbl, m)
    ensures forall k :: SHA_DIGEST_SIZE * m <= k < output.Length ==> output[k] == old(output[k])
  {
    var hmacInput := new byte[|lbl| + SHA_DIGEST_SIZE];
    HmacSha1(hmac, s, lbl, hmacInput, 0);
    for k := 0 to |lbl|
      invariant hmacInput[..SHA_DIGEST_SIZE] == A(hmac, s, lbl, 1)
      invariant hmacInput[SHA_DIGEST_SIZE..SHA_DIGEST_SIZE + k] == lbl[..k]
      invariant forall j :: 0 <= j < output.Length ==> output[j] == old(output[j])
    {
      hmacInput[SHA_DIGEST_SIZE + k] := lbl[k];
    }
    assert hmacInput[..] == A(hmac, s, lbl, 1) + lbl;
    HmacSha1(hmac, s, hmacInput[..], output, 0);
    for i := 2 to m + 1
      invariant hmacInput[..] == A(hmac, s, lbl, i - 1) + lbl
      invariant output[..SHA_DIGEST_SIZE * (i - 1)] == P(hmac, s, lbl, i - 1)
      invariant forall k :: SHA_DIGEST_SIZE * (i - 1) <= k < output.Length ==> output[k] == old(output[k])
    {
      NextInput(hmac, s, lbl, hmacInput, i);
      NextDigest(hmac, s, lbl, hmacInput, i, output);
    }
  }

  /** A_i is computed in place; the label stays untouched. */
  method NextInput(hmac: Hmac, s: seq<byte>, ghost lbl: seq<byte>, hmacInput: array<byte>, ghost i: nat)
    requires i >= 2 && hmacInput[..] == A(hmac, s, lbl, i - 1) + lbl
    modifies hmacInput
    ensures hmacInput[..] == A(hmac, s, lbl, i) + lbl
  {
    assert |A(hmac, s, lbl, i - 1)| == SHA_DIGEST_SIZE;
    assert hmacInput[..SHA_DIGEST_SIZE] == A(hmac, s, lbl, i - 1);
    HmacSha1(hmac, s, hmacInput[..SHA_DIGEST_SIZE], hmacInput, 0);
    assert hmacInput[0..SHA_DIGEST_SIZE] == A(hmac, s, lbl, i);
    assert hmacInput[SHA_DIGEST_SIZE..] == lbl;
    assert hmacInput[..] == hmacInput[0..SHA_DIGEST_SIZE] + hmacInput[SHA_DIGEST_SIZE..];
  }

  /** The next digest goes behind those already there. */
  method NextDigest(hmac: Hmac, s: seq<byte>, ghost lbl: seq<byte>, hmacInput: array<byte>, i: nat, output: array<byte>)
    requires i >= 2 && hmacInput[..] == A(hmac, s, lbl, i) + lbl && hmacInput != output
    requires SHA_DIGEST_SIZE * i <= output.Length && output[..SHA_DIGEST_SIZE * (i - 1)] == P(hmac, s, lbl, i - 1)
    modifies output
    ensures output[..SHA_DIGEST_SIZE * i] == P(hmac, s, lbl, i)
    ensures forall k :: SHA_DIGEST_SIZE * i <= k < output.Length ==> output[k] == old(output[k])
  {
    HmacSha1(hmac, s, hmacInput[..], output, SHA_DIGEST_SIZE * (i - 1));
    assert output[..SHA_DIGEST_SIZE * i] == old(output[..SHA_DIGEST_SIZE * (i - 1)]) + output[SHA_DIGEST_SIZE * (i - 1)..SHA_DIGEST_SIZE * i];
  }

  // ---- the PRF ----

  /** How many digests cover n bytes. */
  function Digests(n: nat): nat { (n + SHA_DIGEST_SIZE - 1) / SHA_DIGEST_SIZE }

  function XorPrefix(a: seq<byte>, b: seq<byte>): (r: seq<byte>)
    requires |a| <= |b|
    ensures |r| == |a|
  {
    seq(|a|, j requires 0 <= j < |a| => XorByte(a[j], b[j]))
  }

  function ZeroBytes(n: nat): (r: seq<byte>)
    ensures |r| == n
  {
    seq(n, j requires 0 <= j < n => 0)
  }

  /** The XOR of P(s, label, m) over the given pieces s of the key, truncated to n bytes. */
  function XorOfChunks(hmac: Hmac, chunks: seq<seq<byte>>, lbl: seq<byte>, n: nat): (r: seq<byte>)
    ensures |r| == n
  {
    if |chunks| == 0 then ZeroBytes(n)
    else
      XorPrefix(XorOfChunks(hmac, chunks[..|chunks| - 1], lbl, n), P(hmac, chunks[|chunks| - 1], lbl, Digests(n)))
  }

  /** The key cut into n pieces of 256 bits. */
  function FullChunks(key: seq<byte>, n: nat): (c: seq<seq<byte>>)
    requires PRF_KEY_CHUNK_LENGTH * n <= |key|
    ensures |c| == n
  {
    seq(n, i requires 0 <= i < n => key[PRF_KEY_CHUNK_LENGTH * i..PRF_KEY_CHUNK_LENGTH * (i + 1)])
  }

  function ChunkCount(keyLength: nat): nat { (keyLength + PRF_KEY_CHUNK_LENGTH - 1) / PRF_KEY_CHUNK_LENGTH }

  /** The pieces of section 4.1.2 of RFC 3830: the last one holds whatever is left, up to 256 bits. */
  function RfcChunks(key: seq<byte>): seq<seq<byte>>
    requires |key| >= 1
  {
    var n := ChunkCount(|key|) - 1;
    FullChunks(key, n) + [key[PRF_KEY_CHUNK_LENGTH * n..]]
  }

  /** The pieces prf() uses: the last one has length |key| % 32. */
  function CodeChunks(key: seq<byte>): seq<seq<byte>>
    requires |key| >= 1
  {
    var n := ChunkCount(|key|) - 1;
    FullChunks(key, n) + [key[PRF_KEY_CHUNK_LENGTH * n..PRF_KEY_CHUNK_LENGTH * n + |key| % PRF_KEY_CHUNK_LENGTH]]
  }

  function Prf(hmac: Hmac, key: seq<byte>, lbl: seq<byte>, n: nat): (r: seq<byte>)
    requires |key| >= 1
    ensures |r| == n
  {
    XorOfChunks(hmac, CodeChunks(key), lbl, n)
  }

  /** outkey[j] ^= p_output[j]. */
  method XorIn(outkey: array<byte>, pOutput: array<byte>)
    requires outkey != pOutput && outkey.Length <= pOutput.Length
    modifies outkey
    ensures outkey[..] == XorPrefix(old(outkey[..]), pOutput[..])
  {
    hide XorByte;
    for j := 0 to outkey.Length
      invariant forall k :: 0 <= k < j ==> outkey[k] == XorByte(old(outkey[k]), pOutput[k])
      invariant forall k :: j <= k < outkey.Length ==> outkey[k] == old(outkey[k])
    {
      outkey[j] := XorByte(outkey[j], pOutput[j]);
    }
  }

  /** prf() */
  method ComputePrf(hmac: Hmac, inkey: seq<byte>, lbl: seq<byte>, outkey: array<byte>)
    requires |inkey| >= 1 && outkey.Length >= 1
    modifies outkey
    ensures outkey[..] == Prf(hmac, inkey, lbl, outkey.Length)
  {
    hide P, XorPrefix;
    var n := ChunkCount(|inkey|);
    var m := Digests(outkey.Length);
    var pOutput := new byte[m * SHA_DIGEST_SIZE];
    for j := 0 to outkey.Length
      invariant forall k :: 0 <= k < j ==> outkey[k] == 0
    {
      outkey[j] := 0;
    }
    ghost var chunks := CodeChunks(inkey);
    assert outkey[..] == XorOfChunks(hmac, chunks[..0], lbl, outkey.Length);
    for i := 1 to n
      invariant outkey[..] == XorOfChunks(hmac, chunks[..i - 1], lbl, outkey.Length)
    {
      ComputeP(hmac, inkey[(i - 1) * PRF_KEY_CHUNK_LENGTH..i * PRF_KEY_CHUNK_LENGTH], lbl, m, pOutput);
      assert pOutput[..] == pOutput[..SHA_DIGEST_SIZE * m];
      XorIn(outkey, pOutput);
      assert chunks[..i][..i - 1] == chunks[..i - 1] && chunks[..i][i - 1] == chunks[i - 1];
    }
    ComputeP(hmac, inkey[(n - 1) * PRF_KEY_CHUNK_LENGTH..(n - 1) * PRF_KEY_CHUNK_LENGTH + |inkey| % PRF_KEY_CHUNK_LENGTH],
             lbl, m, pOutput);
    assert pOutput[..] == pOutput[..SHA_DIGEST_SIZE * m];
    XorIn(outkey, pOutput);
    assert chunks[..n - 1] == chunks[..|chunks| - 1];
  }

  // ---- properties of the PRF ----

  lemma {:induction false} PPrefix(hmac: Hmac, s: seq<byte>, lbl: seq<byte>, m: nat, n: nat)
    requires m <= n
    ensures P(hmac, s, lbl, m) <= P(hmac, s, lbl, n)
    decreases n
  {
    if m < n {
      PPrefix(hmac, s, lbl, m, n - 1);
    }
  }

  lemma {:induction false} XorOfChunksPrefix(hmac: Hmac, chunks: seq<seq<byte>>, lbl: seq<byte>, m: nat, n: nat)
    requires m <= n
    ensures XorOfChunks(hmac, chunks, lbl, m) == XorOfChunks(hmac, chunks, lbl, n)[..m]
  {
    hide P, XorByte;
    if |chunks| > 0 {
      var s := chunks[|chunks| - 1];
      XorOfChunksPrefix(hmac, chunks[..|chunks| - 1], lbl, m, n);
      assert Digests(m) <= Digests(n);
      PPrefix(hmac, s, lbl, Digests(m), Digests(n));
    }
  }

  /** A shorter key is a prefix of a longer one derived from the same inputs. */
  lemma {:induction false} PrfPrefix(hmac: Hmac, key: seq<byte>, lbl: seq<byte>, m: nat, n: nat)
    requires |key| >= 1 && m <= n
    ensures Prf(hmac, key, lbl, m) == Prf(hmac, key, lbl, n)[..m]
  {
    XorOfChunksPrefix(hmac, CodeChunks(key), lbl, m, n);
  }

  // ---- P and the PRF as RFC 3830 has them ----

  /** For every sequence A_0, A_1, ... of the standard, block i of what p() writes is HMAC(s, A_(i+1) || label). */
  lemma {:induction false} BlockOfP(hmac: Hmac, s: seq<byte>, lbl: seq<byte>, m: nat, a: seq<seq<byte>>, i: nat)
    requires i < m < |a| && a[0] == lbl && forall k :: 0 <= k < |a| - 1 ==> a[k + 1] == hmac(s, a[k])
    ensures P(hmac, s, lbl, m)[20 * i..20 * i + 20] == hmac(s, a[i + 1] + lbl)
    decreases m
  {
    ChainIsA(hmac, s, lbl, a, m);
    var h, last := P(hmac, s, lbl, m - 1), hmac(s, A(hmac, s, lbl, m) + lbl);
    assert P(hmac, s, lbl, m) == h + last;
    if i < m - 1 {
      BlockOfP(hmac, s, lbl, m - 1, a, i);
      assert (h + last)[20 * i..20 * i + 20] == h[20 * i..20 * i + 20];
    } else {
      assert (h + last)[20 * i..20 * i + 20] == last;
    }
  }

  lemma {:induction false} ChainIsA(hmac: Hmac, s: seq<byte>, lbl: seq<byte>, a: seq<seq<byte>>, i: nat)
    requires i < |a| && a[0] == lbl && forall k :: 0 <= k < |a| - 1 ==> a[k + 1] == hmac(s, a[k])
    ensures A(hmac, s, lbl, i) == a[i]
    decreases i
  {
    if i > 0 {
      ChainIsA(hmac, s, lbl, a, i - 1);
      assert a[i - 1 + 1] == hmac(s, a[i - 1]);
    }
  }

  lemma {:induction false} IteratedLast(hmac: Hmac, s: seq<byte>, x: seq<byte>, i: nat)
    ensures Rfc3830.Iterated(hmac, s, x, i + 1) == hmac(s, Rfc3830.Iterated(hmac, s, x, i))
    decreases i
  {
    if i > 0 {
      IteratedLast(hmac, s, hmac(s, x), i - 1);
    }
  }

  lemma {:induction false} IteratedIsA(hmac: Hmac, s: seq<byte>, lbl: seq<byte>, i: nat)
    ensures A(hmac, s, lbl, i) == Rfc3830.Iterated(hmac, s, lbl, i)
    decreases i
  {
    if i > 0 {
      IteratedIsA(hmac, s, lbl, i - 1);
      IteratedLast(hmac, s, lbl, i - 1);
    }
  }

  lemma {:induction false} PAt(hmac: Hmac, s: seq<byte>, lbl: seq<byte>, m: nat, j: nat)
    requires j < 20 * m
    ensures P(hmac, s, lbl, m)[j] == Rfc3830.PBlock(hmac, s, lbl, j / 20)[j % 20]
    decreases m
  {
    IteratedIsA(hmac, s, lbl, m);
    if j < 20 * (m - 1) {
      PAt(hmac, s, lbl, m - 1, j);
    } else {
      assert j / 20 == m - 1;
    }
  }

  lemma {:induction false} XorIsXorAt(hmac: Hmac, chunks: seq<seq<byte>>, lbl: seq<byte>, n: nat, j: nat)
    requires j < n
    ensures XorOfChunks(hmac, chunks, lbl, n)[j] == Rfc3830.XorAt(hmac, chunks, lbl, j)
    decreases |chunks|
  {
    hide P, XorByte, Rfc3830.PBlock;
    if |chunks| > 0 {
      XorIsXorAt(hmac, chunks[..|chunks| - 1], lbl, n, j);
      PAt(hmac, chunks[|chunks| - 1], lbl, Digests(n), j);
    }
  }

  lemma {:induction false} PiecesAre(key: seq<byte>)
    requires |key| >= 1
    ensures Rfc3830.Pieces(key) == RfcChunks(key)
    decreases |key|
  {
    if |key| > 32 {
      PiecesAre(key[32..]);
      var n := ChunkCount(|key|) - 1;
      assert ChunkCount(|key[32..]|) - 1 == n - 1;
      var rest := RfcChunks(key[32..]);
      var all := [key[..32]] + rest;
      forall i | 0 <= i < n
        ensures FullChunks(key, n)[i] == all[i]
      {
        if i > 0 {
          Shifted(key, 32 * (i - 1), 32 * i);
        }
      }
      Shifted(key, 32 * (n - 1), |key| - 32);
      assert key[32..][32 * (n - 1)..] == key[32..][32 * (n - 1)..|key| - 32];
      assert key[32 * n..] == key[32 * n..|key|];
      assert RfcChunks(key) == all;
    } else {
      assert key[0..] == key;
    }
  }

  lemma {:induction false} Shifted(key: seq<byte>, i: nat, j: nat)
    requires i <= j <= |key| - 32
    ensures key[32..][i..j] == key[32 + i..32 + j]
  {
  }

  lemma {:induction false} RfcPrfIs(hmac: Hmac, key: seq<byte>, lbl: seq<byte>, n: nat)
    requires |key| >= 1
    ensures Rfc3830.Prf(hmac, key, lbl, n) == XorOfChunks(hmac, RfcChunks(key), lbl, n)
  {
    hide XorOfChunks, RfcChunks, Rfc3830.XorAt;
    PiecesAre(key);
    forall j | 0 <= j < n
      ensures Rfc3830.Prf(hmac, key, lbl, n)[j] == XorOfChunks(hmac, RfcChunks(key), lbl, n)[j]
    {
      XorIsXorAt(hmac, RfcChunks(key), lbl, n, j);
    }
  }

  /** prf() is the PRF of RFC 3830 unless the key length is a multiple of 256 bits. */
  lemma {:induction false} PrfIsRfcPrf(hmac: Hmac, key: seq<byte>, lbl: seq<byte>, n: nat)
    requires |key| >= 1 && |key| % PRF_KEY_CHUNK_LENGTH != 0
    ensures Prf(hmac, key, lbl, n) == Rfc3830.Prf(hmac, key, lbl, n)
  {
    hide XorOfChunks, Rfc3830.Prf;
    var c := ChunkCount(|key|) - 1;
    assert PRF_KEY_CHUNK_LENGTH * c + |key| % PRF_KEY_CHUNK_LENGTH == |key|;
    assert key[PRF_KEY_CHUNK_LENGTH * c..] == key[PRF_KEY_CHUNK_LENGTH * c..|key|];
    RfcPrfIs(hmac, key, lbl, n);
  }

  const OneDigest: seq<byte> := [1, 1, 1, 1, 1, 1, 1, 1, 1, 1, 1, 1, 1, 1, 1, 1, 1, 1, 1, 1]

  /** An HMAC that tells empty keys from others. */
  function Telltale(k: seq<byte>, m: seq<byte>): (r: seq<byte>)
    ensures |r| == SHA_DIGEST_SIZE
  {
    if k == [] then OneDigest else ZeroDigest
  }

  lemma {:induction false} AllZero(chunks: seq<seq<byte>>, lbl: seq<byte>, hmac: Hmac)
    requires forall i, m :: 0 <= i < |chunks| ==> hmac(chunks[i], m) == ZeroDigest
    ensures XorOfChunks(hmac, chunks, lbl, 1) == [0]
  {
    hide XorByte;
    if |chunks| > 0 {
      AllZero(chunks[..|chunks| - 1], lbl, hmac);
      var s := chunks[|chunks| - 1];
      var a := A(hmac, s, lbl, 1) + lbl;
      assert hmac(s, a) == ZeroDigest;
      assert P(hmac, s, lbl, 1) == P(hmac, s, lbl, 0) + ZeroDigest;
      assert P(hmac, s, lbl, 0) == [];
      XorByteZero(0);
    }
  }

  /** For every key length the code agrees with RFC 3830 on all keys, labels and HMACs exactly when the length
      is not a multiple of 32 bytes. */
  lemma {:induction false} PrfAgreesWithRfc(length: nat)
    requires length >= 1
    ensures (forall hmac: Hmac, key: seq<byte>, lbl: seq<byte>, n: nat :: |key| == length ==>
               Prf(hmac, key, lbl, n) == Rfc3830.Prf(hmac, key, lbl, n)) <==> length % PRF_KEY_CHUNK_LENGTH != 0
  {
    hide XorOfChunks;
    if length % PRF_KEY_CHUNK_LENGTH != 0 {
      forall hmac: Hmac, key: seq<byte>, lbl: seq<byte>, n: nat | |key| == length
        ensures Prf(hmac, key, lbl, n) == Rfc3830.Prf(hmac, key, lbl, n)
      {
        PrfIsRfcPrf(hmac, key, lbl, n);
      }
    } else {
      LastChunkDropped(ZeroBytes(length));
    }
  }

  lemma {:induction false} TelltaleHmac() returns (hmac: Hmac)
    ensures forall k, m :: hmac(k, m) == Telltale(k, m)
  {
    var f: (seq<byte>, seq<byte>) -> seq<byte> := Telltale;
    assert forall k, m :: f(k, m) == Telltale(k, m);
    assert forall k, m :: |f(k, m)| == SHA_DIGEST_SIZE;
    hmac := f;
  }

  /** The last piece is the empty one for the code, and has 32 bytes for the standard. */
  lemma {:induction false} LastPieces(key: seq<byte>)
    requires |key| >= 1 && |key| % PRF_KEY_CHUNK_LENGTH == 0
    ensures var full := FullChunks(key, ChunkCount(|key|) - 1);
      CodeChunks(key) == full + [[]] && (forall i :: 0 <= i < |full| ==> full[i] != []) &&
      exists last: seq<byte> :: last != [] && RfcChunks(key) == full + [last]
  {
    var n := ChunkCount(|key|) - 1;
    assert PRF_KEY_CHUNK_LENGTH * n + PRF_KEY_CHUNK_LENGTH == |key|;
    var last := key[PRF_KEY_CHUNK_LENGTH * n..];
    assert |last| == PRF_KEY_CHUNK_LENGTH;
    assert key[PRF_KEY_CHUNK_LENGTH * n..PRF_KEY_CHUNK_LENGTH * n] == [];
    assert forall i :: 0 <= i < n ==> |FullChunks(key, n)[i]| == PRF_KEY_CHUNK_LENGTH;
    assert RfcChunks(key) == FullChunks(key, n) + [last];
  }

  lemma {:induction false} LastChunkDropped(key: seq<byte>)
    requires |key| >= 1 && |key| % PRF_KEY_CHUNK_LENGTH == 0
    ensures exists hmac: Hmac :: Prf(hmac, key, [], 1) != Rfc3830.Prf(hmac, key, [], 1)
  {
    var hmac := TelltaleHmac();
    LastPieces(key);
    hide CodeChunks, RfcChunks, FullChunks, XorOfChunks, XorByte, ChunkCount;
    var full := FullChunks(key, ChunkCount(|key|) - 1);
    var last :| last != [] && RfcChunks(key) == full + [last];
    AllZero(full, [], hmac);
    LastAlone(full, [], hmac);
    AllZero(full + [last], [], hmac);
    RfcPrfIs(hmac, key, [], 1);
    assert Prf(hmac, key, [], 1) == [1] && Rfc3830.Prf(hmac, key, [], 1) == [0];
  }

  /** The part of a key before its last 32 bytes. */
  function Head(key: seq<byte>): seq<byte> {
    if |key| < PRF_KEY_CHUNK_LENGTH then [] else key[..|key| - PRF_KEY_CHUNK_LENGTH]
  }

  lemma {:induction false} InPrefix(s: seq<byte>, n: nat, lo: nat, hi: nat)
    requires lo <= hi <= n <= |s|
    ensures s[..n][lo..hi] == s[lo..hi]
  {
  }

  /** For the other lengths the last 32 bytes of the key are not used at all. */
  lemma {:induction false} TailUnused(hmac: Hmac, key: seq<byte>, key2: seq<byte>, lbl: seq<byte>, n: nat)
    requires |key| == |key2| >= 1 && |key| % PRF_KEY_CHUNK_LENGTH == 0 && Head(key) == Head(key2)
    ensures Prf(hmac, key, lbl, n) == Prf(hmac, key2, lbl, n)
  {
    var c := ChunkCount(|key|) - 1;
    assert PRF_KEY_CHUNK_LENGTH * c == |key| - PRF_KEY_CHUNK_LENGTH;
    forall i | 0 <= i < c
      ensures FullChunks(key, c)[i] == FullChunks(key2, c)[i]
    {
      var lo, hi := PRF_KEY_CHUNK_LENGTH * i, PRF_KEY_CHUNK_LENGTH * (i + 1);
      InPrefix(key, |Head(key)|, lo, hi);
      InPrefix(key2, |Head(key)|, lo, hi);
    }
    assert CodeChunks(key) == CodeChunks(key2);
  }

  /** An HMAC that tells keys that end in 1 from others. */
  function EndsInOne(k: seq<byte>, m: seq<byte>): (r: seq<byte>)
    ensures |r| == SHA_DIGEST_SIZE
  {
    if k != [] && k[|k| - 1] == 1 then OneDigest else ZeroDigest
  }

  /** The last 32 bytes of keys of a length never matter exactly if the length is a multiple of 32. */
  lemma {:induction false} TailUnusedExactly(length: nat)
    requires length >= 1
    ensures (forall hmac: Hmac, key: seq<byte>, key2: seq<byte>, lbl: seq<byte>, n: nat ::
               |key| == |key2| == length && Head(key) == Head(key2) ==> Prf(hmac, key, lbl, n) == Prf(hmac, key2, lbl, n)) <==>
            length % PRF_KEY_CHUNK_LENGTH == 0
  {
    hide XorOfChunks, Head;
    if length % PRF_KEY_CHUNK_LENGTH == 0 {
      forall hmac: Hmac, key: seq<byte>, key2: seq<byte>, lbl: seq<byte>, n: nat | |key| == |key2| == length && Head(key) == Head(key2)
        ensures Prf(hmac, key, lbl, n) == Prf(hmac, key2, lbl, n)
      {
        TailUnused(hmac, key, key2, lbl, n);
      }
    } else {
      var hmac := TailUsed(length);
      var key, key2 := ZeroBytes(length), ZeroBytes(length - 1) + [1];
      SameHead(length);
      assert Prf(hmac, key, [], 1) != Prf(hmac, key2, [], 1);
    }
  }

  lemma {:induction false} SameHead(length: nat)
    requires length >= 1
    ensures Head(ZeroBytes(length)) == Head(ZeroBytes(length - 1) + [1])
  {
  }

  lemma {:induction false} LastPiece(key: seq<byte>)
    requires |key| % PRF_KEY_CHUNK_LENGTH != 0
    ensures var n := ChunkCount(|key|) - 1;
      PRF_KEY_CHUNK_LENGTH * n < |key| && CodeChunks(key) == FullChunks(key, n) + [key[PRF_KEY_CHUNK_LENGTH * n..]]
  {
    var n := ChunkCount(|key|) - 1;
    assert PRF_KEY_CHUNK_LENGTH * n + |key| % PRF_KEY_CHUNK_LENGTH == |key|;
    assert key[PRF_KEY_CHUNK_LENGTH * n..] == key[PRF_KEY_CHUNK_LENGTH * n..|key|];
  }

  lemma {:induction false} ZeroChunks(key: seq<byte>, n: nat)
    requires PRF_KEY_CHUNK_LENGTH * n <= |key| && forall k :: 0 <= k < PRF_KEY_CHUNK_LENGTH * n ==> key[k] == 0
    ensures forall i, m :: 0 <= i < n ==> EndsInOne(FullChunks(key, n)[i], m) == ZeroDigest
  {
    forall i, m | 0 <= i < n
      ensures EndsInOne(FullChunks(key, n)[i], m) == ZeroDigest
    {
      var c := FullChunks(key, n)[i];
      assert c[PRF_KEY_CHUNK_LENGTH - 1] == key[PRF_KEY_CHUNK_LENGTH * i + PRF_KEY_CHUNK_LENGTH - 1];
    }
  }

  lemma {:induction false} EndHmac() returns (hmac: Hmac)
    ensures forall k, m :: hmac(k, m) == EndsInOne(k, m)
  {
    var f: (seq<byte>, seq<byte>) -> seq<byte> := EndsInOne;
    assert forall k, m :: f(k, m) == EndsInOne(k, m);
    assert forall k, m :: |f(k, m)| == SHA_DIGEST_SIZE;
    hmac := f;
  }

  lemma {:induction false} PieceEnds(key: seq<byte>, i: nat, b: byte)
    requires i < |key| && key[|key| - 1] == b
    ensures forall m :: EndsInOne(key[i..], m) == if b == 1 then OneDigest else ZeroDigest
  {
    assert key[i..][|key[i..]| - 1] == b;
  }

  lemma {:induction false} TailUsed(length: nat) returns (hmac: Hmac)
    requires length % PRF_KEY_CHUNK_LENGTH != 0
    ensures Prf(hmac, ZeroBytes(length), [], 1) != Prf(hmac, ZeroBytes(length - 1) + [1], [], 1)
  {
    hmac := EndHmac();
    hide CodeChunks, FullChunks, XorOfChunks, XorByte, ChunkCount, EndsInOne;
    var key, key2 := ZeroBytes(length), ZeroBytes(length - 1) + [1];
    var n := ChunkCount(length) - 1;
    LastPiece(key);
    LastPiece(key2);
    ZeroChunks(key, n);
    ZeroChunks(key2, n);
    PieceEnds(key, PRF_KEY_CHUNK_LENGTH * n, 0);
    PieceEnds(key2, PRF_KEY_CHUNK_LENGTH * n, 1);
    AllZero(FullChunks(key, n) + [key[PRF_KEY_CHUNK_LENGTH * n..]], [], hmac);
    AllZero(FullChunks(key2, n), [], hmac);
    LastAlone(FullChunks(key2, n), key2[PRF_KEY_CHUNK_LENGTH * n..], hmac);
  }

  lemma {:induction false} LastAlone(chunks: seq<seq<byte>>, last: seq<byte>, hmac: Hmac)
    requires XorOfChunks(hmac, chunks, [], 1) == [0] && forall m :: hmac(last, m) == OneDigest
    ensures XorOfChunks(hmac, chunks + [last], [], 1) == [1]
  {
    hide XorByte;
    var all := chunks + [last];
    assert all[..|chunks|] == chunks && all[|chunks|] == last;
    assert P(hmac, last, [], 0) == [];
    assert P(hmac, last, [], 1) == [] + hmac(last, A(hmac, last, [], 1) + []);
    assert P(hmac, last, [], 1)[0] == 1;
    XorByteZero(1);
  }

  // ---- derived keys ----

  datatype KeyType = Tek | Salt | TransEncr | TransSalt | TransAuth | Encr | Auth

  /** The constants of sections 4.1.3 and 4.1.4 of RFC 3830. */
  function LabelConstant(kind: KeyType): (r: seq<byte>)
    ensures |r| == 4
  {
    match kind
    case Salt => [0x39, 0xA2, 0xC1, 0x4B]
    case Tek => [0x2A, 0xD0, 0x1C, 0x64]
    case TransEncr => [0x15, 0x05, 0x33, 0xE1]
    case TransSalt => [0x29, 0xB8, 0x89, 0x16]
    case TransAuth => [0x2D, 0x22, 0xAC, 0x75]
    case Encr => [0x15, 0x79, 0x8C, 0xEF]
    case Auth => [0x1B, 0x5C, 0x79, 0x73]
  }

  function Label(kind: KeyType, csId: byte, csbId: nat, rand: seq<byte>): seq<byte> {
    LabelConstant(kind) + [csId] + Be(csbId, 4) + rand
  }

  /** The constants as numbers. */
  function RfcConstant(kind: KeyType): nat {
    match kind
    case Tek => 0x2AD01C64
    case Auth => 0x1B5C7973
    case Encr => 0x15798CEF
    case Salt => 0x39A2C14B
    case TransEncr => 0x150533E1
    case TransAuth => 0x2D22AC75
    case TransSalt => 0x29B88916
  }

  lemma {:induction false} ConstantBytes(kind: KeyType)
    ensures var b := LabelConstant(kind); Rfc3830.Word(b[0], b[1], b[2], b[3]) == RfcConstant(kind)
  {
  }

  lemma {:induction false} FourBytesWord(x: nat)
    ensures var b := Be(x, 4); Rfc3830.Word(b[0], b[1], b[2], b[3]) == x % TWO32
  {
    hide Be, Number;
    NumberOfBe(x, 4);
    FieldSizes();
    NumberOfFour(Be(x, 4));
  }

  lemma {:induction false} NumberOfFour(b: seq<byte>)
    requires |b| == 4
    ensures Number(b) == Rfc3830.Word(b[0], b[1], b[2], b[3])
  {
    assert b[..3][..2] == b[..2] && b[..2][..1] == b[..1] && b[..1][..0] == [];
    assert Number(b[..1]) == b[0];
    assert Number(b[..2]) == (b[0] as int) * 256 + b[1] as int;
  }

  /** The label is the one of the standard. */
  lemma {:induction false} LabelIs(kind: KeyType, csId: byte, csbId: nat, rand: seq<byte>)
    ensures Rfc3830.IsLabel(Label(kind, csId, csbId, rand), RfcConstant(kind), csId, csbId, rand)
  {
    hide Be, LabelConstant, RfcConstant;
    ConstantBytes(kind);
    FourBytesWord(csbId);
    var lbl := Label(kind, csId, csbId, rand);
    assert lbl[..4] == LabelConstant(kind);
    assert lbl[0] == lbl[..4][0] && lbl[1] == lbl[..4][1] && lbl[2] == lbl[..4][2] && lbl[3] == lbl[..4][3];
    assert lbl[5..9] == Be(csbId, 4);
    assert lbl[5] == lbl[5..9][0] && lbl[6] == lbl[5..9][1] && lbl[7] == lbl[5..9][2] && lbl[8] == lbl[5..9][3];
  }

  /** The constants of the seven kinds of keys. */
  lemma {:induction false} LabelConstants(csId: byte, csbId: nat, rand: seq<byte>)
    ensures Rfc3830.IsLabel(Label(Tek, csId, csbId, rand), 0x2AD01C64, csId, csbId, rand)
    ensures Rfc3830.IsLabel(Label(Auth, csId, csbId, rand), 0x1B5C7973, csId, csbId, rand)
    ensures Rfc3830.IsLabel(Label(Encr, csId, csbId, rand), 0x15798CEF, csId, csbId, rand)
    ensures Rfc3830.IsLabel(Label(Salt, csId, csbId, rand), 0x39A2C14B, csId, csbId, rand)
    ensures Rfc3830.IsLabel(Label(TransEncr, csId, csbId, rand), 0x150533E1, csId, csbId, rand)
    ensures Rfc3830.IsLabel(Label(TransAuth, csId, csbId, rand), 0x2D22AC75, csId, csbId, rand)
    ensures Rfc3830.IsLabel(Label(TransSalt, csId, csbId, rand), 0x29B88916, csId, csbId, rand)
  {
    hide Label, Rfc3830.IsLabel;
    LabelIs(Tek, csId, csbId, rand);
    LabelIs(Auth, csId, csbId, rand);
    LabelIs(Encr, csId, csbId, rand);
    LabelIs(Salt, csId, csbId, rand);
    LabelIs(TransEncr, csId, csbId, rand);
    LabelIs(TransAuth, csId, csbId, rand);
    LabelIs(TransSalt, csId, csbId, rand);
  }

  lemma {:induction false} WordUnique(a0: byte, a1: byte, a2: byte, a3: byte, b0: byte, b1: byte, b2: byte, b3: byte)
    requires Rfc3830.Word(a0, a1, a2, a3) == Rfc3830.Word(b0, b1, b2, b3)
    ensures a0 == b0 && a1 == b1 && a2 == b2 && a3 == b3
  {
  }

  lemma {:induction false} LabelUnique(a: seq<byte>, b: seq<byte>, constant: nat, csId: byte, csbId: nat, rand: seq<byte>)
    requires Rfc3830.IsLabel(a, constant, csId, csbId, rand) && Rfc3830.IsLabel(b, constant, csId, csbId, rand)
    ensures a == b
  {
    hide Rfc3830.Word;
    WordUnique(a[0], a[1], a[2], a[3], b[0], b[1], b[2], b[3]);
    WordUnique(a[5], a[6], a[7], a[8], b[5], b[6], b[7], b[8]);
    forall i | 0 <= i < |a|
      ensures a[i] == b[i]
    {
      assert i >= 9 ==> a[i] == a[9..][i - 9] && b[i] == b[9..][i - 9];
    }
  }

  /** Keys of different kinds, sessions, bundles or exchanges have different labels. */
  lemma {:induction false} LabelsDiffer(kind: KeyType, csId: byte, csbId: nat, rand: seq<byte>,
                                        kind2: KeyType, csId2: byte, csbId2: nat, rand2: seq<byte>)
    requires csbId < TWO32 && csbId2 < TWO32
    requires Label(kind, csId, csbId, rand) == Label(kind2, csId2, csbId2, rand2)
    ensures kind == kind2 && csId == csId2 && csbId == csbId2 && rand == rand2
  {
    hide Be;
    var a, b := Label(kind, csId, csbId, rand), Label(kind2, csId2, csbId2, rand2);
    assert a[..4] == LabelConstant(kind) && b[..4] == LabelConstant(kind2);
    assert a[0] == LabelConstant(kind)[0] && a[1] == LabelConstant(kind)[1];
    assert b[0] == LabelConstant(kind2)[0] && b[1] == LabelConstant(kind2)[1];
    assert a[4] == csId && b[4] == csId2;
    assert a[5..9] == Be(csbId, 4) && b[5..9] == Be(csbId2, 4);
    assert a[9..] == rand && b[9..] == rand2;
    FieldSizes();
    FieldRoundTrip(csbId, 4);
    FieldRoundTrip(csbId2, 4);
  }

  /** keyDeriv as a function. */
  function DerivedKey(hmac: Hmac, kind: KeyType, csId: byte, csbId: nat, rand: seq<byte>, inkey: seq<byte>, n: nat): (r: seq<byte>)
    requires |inkey| >= 1
    ensures |r| == n
  {
    Prf(hmac, inkey, Label(kind, csId, csbId, rand), n)
  }

  /** For other key lengths than multiples of 32 the key is PRF(inkey, label) of the standard. */
  lemma {:induction false} DerivedKeyIs(hmac: Hmac, kind: KeyType, csId: byte, csbId: nat, rand: seq<byte>, inkey: seq<byte>, n: nat, lbl: seq<byte>)
    requires |inkey| >= 1 && |inkey| % 32 != 0 && Rfc3830.IsLabel(lbl, RfcConstant(kind), csId, csbId, rand)
    ensures DerivedKey(hmac, kind, csId, csbId, rand, inkey, n) == Rfc3830.Prf(hmac, inkey, lbl, n)
  {
    hide Prf, Rfc3830.Prf, Label, Rfc3830.IsLabel;
    LabelIs(kind, csId, csbId, rand);
    LabelUnique(lbl, Label(kind, csId, csbId, rand), RfcConstant(kind), csId, csbId, rand);
    PrfIsRfcPrf(hmac, inkey, lbl, n);
  }

  /** The last 32 bytes of the TGK of default length, 192 bytes, have no part in any key derived from it. */
  lemma {:induction false} DefaultTgkTail(hmac: Hmac, kind: KeyType, csId: byte, csbId: nat, rand: seq<byte>, tgk: seq<byte>, tgk2: seq<byte>, n: nat)
    requires |tgk| == |tgk2| == DEFAULT_TGK_LENGTH && tgk[..160] == tgk2[..160]
    ensures DerivedKey(hmac, kind, csId, csbId, rand, tgk, n) == DerivedKey(hmac, kind, csId, csbId, rand, tgk2, n)
  {
    hide Prf;
    TailUnused(hmac, tgk, tgk2, Label(kind, csId, csbId, rand), n);
  }

  method KeyDeriv(hmac: Hmac, csId: byte, csbId: nat, rand: seq<byte>, inkey: seq<byte>, keyLength: nat, kind: KeyType) returns (key: seq<byte>)
    requires |inkey| >= 1 && keyLength >= 1
    ensures key == DerivedKey(hmac, kind, csId, csbId, rand, inkey, keyLength)
  {
    var lbl := LabelConstant(kind) + [csId] + [csbId / 0x100_0000 % 256, csbId / 0x1_0000 % 256, csbId / 256 % 256, csbId % 256] + rand;
    assert lbl == Label(kind, csId, csbId, rand) by { FourBytes(csbId); }
    var out := new byte[keyLength];
    ComputePrf(hmac, inkey, lbl, out);
    key := out[..];
  }

  lemma {:induction false} FourBytes(x: nat)
    ensures Be(x, 4) == [x / 0x100_0000 % 256, x / 0x1_0000 % 256, x / 256 % 256, x % 256]
  {
    assert Be(x / 0x100_0000, 1) == [x / 0x100_0000 % 256];
    assert x / 256 / 256 / 256 == x / 0x100_0000 && x / 256 / 256 == x / 0x1_0000;
    assert Be(x / 256 / 256, 2) == Be(x / 256 / 256 / 256, 1) + [x / 256 / 256 % 256];
    assert Be(x / 256, 3) == Be(x / 256 / 256, 2) + [x / 256 % 256];
  }
}
