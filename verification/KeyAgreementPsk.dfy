/** KeyAgreementPSK.cxx, and deriveTranspKeys of MikeyMessage.cxx. */
module KeyAgreementPsk {
  import opened Bytes
  import opened MikeyCrypto
  import opened MikeyPayload
  import opened KeyDerivation
  import opened KeyAgreement
  import opened MikeyCipher
  import Rfc3830

  const TRANSPORT_CS_ID: byte := 0xFF

  function TransportKey(hmac: Hmac, kind: KeyType, csbId: nat, rand: seq<byte>, psk: seq<byte>, n: nat): (r: seq<byte>)
    requires |psk| >= 1
    ensures |r| == n
  {
    DerivedKey(hmac, kind, TRANSPORT_CS_ID, csbId, rand, psk, n)
  }

  /** For pre-shared keys whose length is a multiple of 32 bytes the transport keys do not depend on the last 32 bytes. Of a
      key of 32 bytes nothing is left then. */
  lemma {:induction false} TransportTailUnused(hmac: Hmac, kind: KeyType, csbId: nat, rand: seq<byte>, psk: seq<byte>, psk2: seq<byte>, n: nat)
    requires |psk| == |psk2| >= 1 && |psk| % PRF_KEY_CHUNK_LENGTH == 0 && Head(psk) == Head(psk2)
    ensures TransportKey(hmac, kind, csbId, rand, psk, n) == TransportKey(hmac, kind, csbId, rand, psk2, n)
  {
    hide Prf;
    TailUnused(hmac, psk, psk2, Label(kind, TRANSPORT_CS_ID, csbId, rand), n);
  }

  /** The initial counter block of section 4.2.3 of RFC 3830: the salt masked with the bundle id and the time. */
  function TransportIv(salt: seq<byte>, csbId: nat, t: nat): (r: seq<byte>)
    requires |salt| == 14
    ensures |r| == 16
  {
    salt[..2] + XorPrefix(salt[2..6], Be(csbId, 4)) + XorPrefix(salt[6..14], Be(t, 8)) + [0, 0]
  }

  class KeyAgreementPSK {
    const ka: KeyAgreement
    var psk: seq<byte>
    var v: bool
    var macAlg: byte
    /** Empty when there is none. */
    var authKey: seq<byte>
    var tSent: nat
    var tReceived: nat

    ghost predicate Valid()
      reads this, ka
    {
      |psk| >= 1 && ka.Valid() && tSent < TWO64 && tReceived < TWO64
    }

    constructor (ka: KeyAgreement, psk: seq<byte>)
      ensures this.ka == ka && this.psk == psk && !v && macAlg == 0 && authKey == [] && tSent == tReceived == 0
    {
      this.ka, this.psk := ka, psk;
      v, macAlg, authKey, tSent, tReceived := false, 0, [], 0, 0;
    }

    ghost function Transport(kind: KeyType, n: nat): (r: seq<byte>)
      requires |psk| >= 1
      reads this, ka
      ensures |r| == n
    {
      TransportKey(ka.hmac, kind, ka.csbId, ka.RandBytes(), psk, n)
    }

    ghost function Iv(t: nat): (r: seq<byte>)
      requires |psk| >= 1
      reads this, ka
      ensures |r| == 16
    {
      TransportIv(Transport(TransSalt, 14), ka.csbId, t)
    }

    /** genTranspEncrKey, genTranspSaltKey and genTranspAuthKey. */
    method GenTransp(kind: KeyType, length: nat) returns (key: seq<byte>)
      requires |psk| >= 1 && length >= 1
      ensures key == Transport(kind, length)
    {
      key := KeyDeriv(ka.hmac, TRANSPORT_CS_ID, ka.csbId, ka.RandBytes(), psk, length, kind);
    }

    /** deriveTranspKeys, when both algorithms are known: the keys of the KEMAC payload, and the authentication
        key that the state keeps. An unknown algorithm is reported before or after the state is changed,
        depending on whether the caller collects an error message. */
    method DeriveTranspKeys(encrAlg: byte, macAlg: byte, t: nat, collectsError: bool) returns (ok: bool, encrKey: Key, iv: Key)
      requires |psk| >= 1
      modifies `macAlg, `authKey
      ensures ok == (encrAlg <= ENCR_AES_CM && macAlg <= MAC_HMAC_SHA1)
      ensures encrAlg == ENCR_AES_CM && (ok || collectsError) ==> encrKey == Transport(TransEncr, 16) && iv == Iv(t)
      ensures ok || collectsError ==> this.macAlg == macAlg && authKey == if macAlg == MAC_HMAC_SHA1 then Transport(TransAuth, 20) else []
      ensures !ok && !collectsError ==> this.macAlg == old(this.macAlg) && authKey == old(authKey)
    {
      encrKey, iv := *, *;
      ok := true;
      if encrAlg == ENCR_AES_CM {
        encrKey := GenTransp(TransEncr, 16);
        var saltKey := GenTransp(TransSalt, 14);
        iv := MaskSalt(saltKey, ka.csbId, t);
      } else if encrAlg != ENCR_NULL {
        ok := false;
        if !collectsError {
          return;
        }
      }
      var key := [];
      if macAlg == MAC_HMAC_SHA1 {
        key := GenTransp(TransAuth, 20);
      } else if macAlg != MAC_NULL {
        ok := false;
        if !collectsError {
          return;
        }
      }
      this.macAlg := macAlg;
      authKey := key;
    }
  }

  /** The two loops that fill the IV. */
  method MaskSalt(saltKey: seq<byte>, csbId: nat, t: nat) returns (iv: seq<byte>)
    requires |saltKey| == 14
    ensures iv == TransportIv(saltKey, csbId, t)
  {
    hide Be, XorByte;
    var a := new byte[16](_ => 0);
    a[0], a[1] := saltKey[0], saltKey[1];
    for i := 2 to 6
      invariant a[0] == saltKey[0] && a[1] == saltKey[1] && a[14] == a[15] == 0
      invariant forall k :: 2 <= k < i ==> a[k] == XorByte(saltKey[k], Be(csbId, 4)[k - 2])
    {
      a[i] := XorByte(saltKey[i], Be(csbId, 4)[i - 2]);
    }
    for i := 6 to 14
      invariant a[0] == saltKey[0] && a[1] == saltKey[1] && a[14] == a[15] == 0
      invariant forall k :: 2 <= k < 6 ==> a[k] == XorByte(saltKey[k], Be(csbId, 4)[k - 2])
      invariant forall k :: 6 <= k < i ==> a[k] == XorByte(saltKey[k], Be(t, 8)[k - 6])
    {
      a[i] := XorByte(saltKey[i], Be(t, 8)[i - 6]);
    }
    iv := a[..];
    assert a[..] == TransportIv(saltKey, csbId, t);
  }

  /** The transport keys are PRF(psk, label) of the standard, with the CS ID 0xFF, for pre-shared keys whose length is not a
      multiple of 32 bytes. */
  lemma {:induction false} TransportIs(k: KeyAgreementPSK, kind: KeyType, n: nat, lbl: seq<byte>)
    requires |k.psk| >= 1 && |k.psk| % 32 != 0
    requires Rfc3830.IsLabel(lbl, RfcConstant(kind), 0xFF, k.ka.csbId, if k.ka.rand.Some? then k.ka.rand.value else [])
    ensures k.Transport(kind, n) == Rfc3830.Prf(k.ka.hmac, k.psk, lbl, n)
  {
    hide Rfc3830.Prf, Rfc3830.IsLabel, RfcConstant;
    DerivedKeyIs(k.ka.hmac, kind, 0xFF, k.ka.csbId, k.ka.RandBytes(), k.psk, n, lbl);
  }

  /** The initial counter block: the salt, of which bytes 2 to 5 are XORed with the bundle id c and bytes 6 to 13 with the time
      stamp u, and two zeros. */
  lemma {:induction false} IvBytes(k: KeyAgreementPSK, t: nat, c: seq<byte>, u: seq<byte>, i: nat)
    requires |k.psk| >= 1 && |c| == 4 && |u| == 8 && Number(c) == k.ka.csbId < TWO32 && Number(u) == t < TWO64 && i < 16
    ensures var salt := k.Transport(TransSalt, 14);
      k.Iv(t)[i] == if i < 2 then salt[i] else if i < 6 then XorByte(salt[i], c[i - 2]) else if i < 14 then XorByte(salt[i], u[i - 6]) else 0
  {
    hide XorByte, Be, Number;
    BeOfNumber(c);
    BeOfNumber(u);
  }
}
