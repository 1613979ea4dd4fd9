/** What the MACs and signatures of MIKEY messages cover, byte by byte. */
module MikeyCoverage {
  import opened Wrappers
  import opened Bytes
  import opened MikeyCrypto
  import opened MikeyPayload
  import opened MikeyList
  import opened KeyDerivation
  import opened MikeyCipher
  import opened MikeyAuth
  import opened KeyAgreementDh
  import opened MikeyDh

  // ---- MACs ----

  /** The MAC field of a KEMAC payload is the HMAC of the message without its last 20 bytes, and that of a V payload the HMAC of
      the same bytes followed by the time stamp. */
  lemma {:induction false} MacInputs(hmac: Hmac, authKey: seq<byte>, raw: seq<byte>, t: nat)
    requires |raw| >= 20
    ensures KemacMac(hmac, authKey, raw) == hmac(authKey, raw[..|raw| - 20])
    ensures VerMac(hmac, authKey, raw, t) == hmac(authKey, raw[..|raw| - 20] + Be(t, 8))
  {
    hide Be;
  }

  /** An HMAC that tells one message from all others. */
  lemma {:induction false} Singling(x: seq<byte>) returns (hmac: Hmac)
    ensures forall k, m :: hmac(k, m) == if m == x then OneDigest else ZeroDigest
  {
    var f: (seq<byte>, seq<byte>) -> seq<byte> := (k: seq<byte>, m: seq<byte>) => if m == x then OneDigest else ZeroDigest;
    assert forall k, m :: |f(k, m)| == SHA_DIGEST_SIZE;
    hmac := f;
  }

  /** Messages with the same KEMAC MAC under every HMAC agree in all bytes before the MAC. */
  lemma {:induction false} KemacCovers(authKey: seq<byte>, raw: seq<byte>, raw2: seq<byte>)
    requires |raw| >= 20 && |raw2| >= 20 && forall hmac: Hmac :: KemacMac(hmac, authKey, raw) == KemacMac(hmac, authKey, raw2)
    ensures raw[..|raw| - 20] == raw2[..|raw2| - 20]
  {
    hide KemacMac;
    var hmac := Singling(raw[..|raw| - 20]);
    MacInputs(hmac, authKey, raw, 0);
    MacInputs(hmac, authKey, raw2, 0);
    assert KemacMac(hmac, authKey, raw) == KemacMac(hmac, authKey, raw2);
    assert OneDigest[0] != ZeroDigest[0];
  }

  lemma {:induction false} SplitTime(a: seq<byte>, b: seq<byte>, t: nat, t2: nat)
    requires a + Be(t, 8) == b + Be(t2, 8) && t < TWO64 && t2 < TWO64
    ensures a == b && t == t2
  {
    hide Be;
    var x, y := a + Be(t, 8), b + Be(t2, 8);
    assert x[..|x| - 8] == a && y[..|y| - 8] == b;
    assert x[|x| - 8..] == Be(t, 8) && y[|y| - 8..] == Be(t2, 8);
    Field64(t);
    Field64(t2);
  }

  /** And with the same MAC of a verification message, also in the time stamp. */
  lemma {:induction false} VerCovers(authKey: seq<byte>, raw: seq<byte>, t: nat, raw2: seq<byte>, t2: nat)
    requires |raw| >= 20 && |raw2| >= 20 && t < TWO64 && t2 < TWO64
    requires forall hmac: Hmac :: VerMac(hmac, authKey, raw, t) == VerMac(hmac, authKey, raw2, t2)
    ensures raw[..|raw| - 20] == raw2[..|raw2| - 20] && t == t2
  {
    hide VerMac, Be;
    var x, y := raw[..|raw| - 20] + Be(t, 8), raw2[..|raw2| - 20] + Be(t2, 8);
    var hmac := Singling(x);
    MacInputs(hmac, authKey, raw, t);
    MacInputs(hmac, authKey, raw2, t2);
    assert VerMac(hmac, authKey, raw, t) == VerMac(hmac, authKey, raw2, t2);
    assert OneDigest[0] != ZeroDigest[0];
    SplitTime(raw[..|raw| - 20], raw2[..|raw2| - 20], t, t2);
  }

  /** The receiver accepts a KEMAC payload with a MAC exactly if the MAC is the HMAC of the bytes before it. */
  lemma {:induction false} KemacChecked(hmac: Hmac, authKey: seq<byte>, ps: seq<Payload>, raw: seq<byte>)
    requires |raw| >= 20 && Extract(ps, KEMAC_TYPE).Some? && Extract(ps, KEMAC_TYPE).value.Kemac?
    requires Extract(ps, KEMAC_TYPE).value.macAlg == MAC_HMAC_SHA1
    ensures KemacAccepted(hmac, authKey, ps, raw) <==> Extract(ps, KEMAC_TYPE).value.mac == hmac(authKey, raw[..|raw| - 20])
  {
  }

  lemma {:induction false} VerChecked(hmac: Hmac, authKey: seq<byte>, ps: seq<Payload>, raw: seq<byte>, t: nat)
    requires |raw| >= 20 && Extract(ps, V_TYPE).Some? && Extract(ps, V_TYPE).value.Ver?
    requires Extract(ps, V_TYPE).value.macAlg == MAC_HMAC_SHA1
    ensures VerAccepted(hmac, authKey, ps, raw, t) <==> Extract(ps, V_TYPE).value.mac == hmac(authKey, raw[..|raw| - 20] + Be(t, 8))
  {
    hide Be;
  }

  /** A message that carries the MAC of another one, from which it differs before the MAC, is refused under some HMAC. */
  lemma {:induction false} ChangedIsRefused(authKey: seq<byte>, raw: seq<byte>, ps2: seq<Payload>, raw2: seq<byte>) returns (hmac: Hmac)
    requires |raw| >= 20 && |raw2| >= 20 && raw[..|raw| - 20] != raw2[..|raw2| - 20]
    requires Extract(ps2, KEMAC_TYPE).Some? && Extract(ps2, KEMAC_TYPE).value.Kemac? && Extract(ps2, KEMAC_TYPE).value.macAlg == MAC_HMAC_SHA1
    ensures Extract(ps2, KEMAC_TYPE).value.mac == KemacMac(hmac, authKey, raw) ==> !KemacAccepted(hmac, authKey, ps2, raw2)
  {
    hide KemacAccepted, KemacMac;
    hmac := Singling(raw[..|raw| - 20]);
    MacInputs(hmac, authKey, raw, 0);
    KemacChecked(hmac, authKey, ps2, raw2);
    assert OneDigest[0] != ZeroDigest[0];
  }

  /** The same for a verification message, which is also refused for another time stamp. */
  lemma {:induction false} ChangedAnswerIsRefused(authKey: seq<byte>, raw: seq<byte>, t: nat, ps2: seq<Payload>, raw2: seq<byte>, t2: nat)
      returns (hmac: Hmac)
    requires |raw| >= 20 && |raw2| >= 20 && t < TWO64 && t2 < TWO64 && (raw[..|raw| - 20] != raw2[..|raw2| - 20] || t != t2)
    requires Extract(ps2, V_TYPE).Some? && Extract(ps2, V_TYPE).value.Ver? && Extract(ps2, V_TYPE).value.macAlg == MAC_HMAC_SHA1
    ensures Extract(ps2, V_TYPE).value.mac == VerMac(hmac, authKey, raw, t) ==> !VerAccepted(hmac, authKey, ps2, raw2, t2)
  {
    hide VerAccepted, VerMac, Be;
    var x, y := raw[..|raw| - 20] + Be(t, 8), raw2[..|raw2| - 20] + Be(t2, 8);
    hmac := Singling(x);
    MacInputs(hmac, authKey, raw, t);
    VerChecked(hmac, authKey, ps2, raw2, t2);
    assert OneDigest[0] != ZeroDigest[0];
    if x == y {
      SplitTime(raw[..|raw| - 20], raw2[..|raw2| - 20], t, t2);
    }
  }

  // ---- signatures ----

  /** Without identities the message before the signature is signed. */
  lemma {:induction false} SignedBytes(ps: seq<Payload>, raw: seq<byte>, n: nat)
    requires |ps| > 0 && n <= |raw|
    ensures SignData(ps, raw, n, false) == Some(raw[..|raw| - n])
  {
  }

  lemma {:induction false} SkipNoIds(ps: seq<Payload>, i: nat, k: nat)
    requires i <= |ps| && forall j :: 0 <= j < i ==> !ps[j].Id?
    ensures NthId(ps, k) == NthId(ps[i..], k)
    decreases i
  {
    if i > 0 {
      SkipNoIds(ps[1..], i - 1, k);
      assert ps[1..][i - 1..] == ps[i..];
    } else {
      assert ps[0..] == ps;
    }
  }

  /** With identities: the message before the signature, the first two identities before the last payload, and the first
      time stamp. */
  lemma {:induction false} SignedWithIds(ps: seq<Payload>, raw: seq<byte>, n: nat, i: nat, j: nat, l: nat)
    requires n <= |raw| && i < j < |ps| - 1 && l < |ps| && ps[i].Id? && ps[j].Id? && ps[l].Time?
    requires (forall k :: 0 <= k < j && k != i ==> !ps[k].Id?) && forall k :: 0 <= k < l ==> !ps[k].Time?
    ensures SignData(ps, raw, n, true) == Some(raw[..|raw| - n] + (ps[i].idData + ps[j].idData + Be(ps[l].ts, 8)))
  {
    hide Be, Extract, NthId;
    FirstTime(ps, l);
    NthIds(ps[..|ps| - 1], i, j);
  }

  lemma {:induction false} NthIds(ps: seq<Payload>, i: nat, j: nat)
    requires i < j < |ps| && ps[i].Id? && ps[j].Id? && forall k :: 0 <= k < j && k != i ==> !ps[k].Id?
    ensures NthId(ps, 0) == Some(ps[i]) && NthId(ps, 1) == Some(ps[j])
  {
    SkipNoIds(ps, i, 0);
    SkipNoIds(ps, i, 1);
    var rest := ps[i..][1..];
    SkipNoIds(rest, j - i - 1, 0);
    assert rest[j - i - 1..][0] == ps[j];
  }

  lemma {:induction false} FirstTime(ps: seq<Payload>, l: nat)
    requires l < |ps| && ps[l].Time? && forall k :: 0 <= k < l ==> !ps[k].Time?
    ensures Extract(ps, T_TYPE) == Some(ps[l])
    decreases l
  {
    KindOf(ps[0]);
    if l > 0 {
      FirstTime(ps[1..], l - 1);
    }
  }

  /** The signature that addSignaturePayload leaves in a message is one of all bytes before it. */
  lemma {:induction false} SignatureCovers(ps: seq<Payload>, sign: SignFunction, r0: int, r1: int)
    requires |ps| > 0 && ToSign(ps, GUESSED_SIGNATURE_LENGTH, false).Some?
    ensures var m := Signed(ps, sign, r0, r1, false); var raw := EncodeAll(m); var n := SignatureLength(ps, sign, r0, false);
      var sig := m[|m| - 1];
      sig.Sign? && (|sig.signature| == n ==>
        n <= |raw| && sig.signature == sign(if n == GUESSED_SIGNATURE_LENGTH then r0 else r1, raw[..|raw| - n]))
  {
    hide EncodeAll, ToSign, ZeroBytes, IdsAndT;
    var m := Signed(ps, sign, r0, r1, false);
    var sig := m[|m| - 1];
    ToSignIs(ps, sig.signature, false);
    SignedBytes(m, EncodeAll(m), |sig.signature|);
  }

  /** The signature is checked over all bytes before it. */
  lemma {:induction false} SignatureChecked(verify: (seq<byte>, seq<byte>) -> bool, ps: seq<Payload>, raw: seq<byte>)
    requires |ps| > 0 && Extract(ps, SIGN_TYPE).Some? && Extract(ps, SIGN_TYPE).value.Sign? && |Extract(ps, SIGN_TYPE).value.signature| <= |raw|
    ensures var s := Extract(ps, SIGN_TYPE).value.signature; SignatureAccepted(verify, ps, raw, false) <==> verify(raw[..|raw| - |s|], s)
  {
    SignedBytes(ps, raw, |Extract(ps, SIGN_TYPE).value.signature|);
  }

  /** authenticate() of the Diffie-Hellman exchange: the last payload must be a signature, and it is checked under the first
      certificate over all bytes before it. */
  lemma {:induction false} LastSignatureChecked(verify: VerifyFunction, chain: seq<seq<byte>>, ps: seq<Payload>, raw: seq<byte>)
    requires |ps| > 0
    ensures LastSignatureAccepted(verify, chain, ps, raw) <==>
      chain != [] && ps[|ps| - 1].Sign? && |ps[|ps| - 1].signature| <= |raw| &&
      verify(chain[0], raw[..|raw| - |ps[|ps| - 1].signature|], ps[|ps| - 1].signature)
  {
  }

  /** So a message that differs before the signature is refused by some public key. */
  lemma {:induction false} ChangedIsRefusedDh(cert: seq<byte>, raw: seq<byte>, sig: seq<byte>, chain: seq<seq<byte>>, ps2: seq<Payload>, raw2: seq<byte>)
      returns (verify: VerifyFunction)
    requires |ps2| > 0 && ps2[|ps2| - 1].Sign? && ps2[|ps2| - 1].signature == sig && |sig| <= |raw| && |sig| <= |raw2| && chain != []
    requires raw[..|raw| - |sig|] != raw2[..|raw2| - |sig|]
    ensures verify(cert, raw[..|raw| - |sig|], sig) && !LastSignatureAccepted(verify, chain, ps2, raw2)
  {
    hide LastSignatureAccepted;
    var x := raw[..|raw| - |sig|];
    verify := (c: seq<byte>, m: seq<byte>, s: seq<byte>) => m == x;
    LastSignatureChecked(verify, chain, ps2, raw2);
  }
}
