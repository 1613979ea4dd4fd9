/** MACs and signatures over partly built messages: addKemacPayload, addVPayload, addSignaturePayload and their
    verification. */
module MikeyAuth {
  import opened Wrappers
  import opened Bytes
  import opened MikeyCrypto
  import opened MikeyPayload
  import opened MikeyList
  import opened MikeyMessage
  import opened KeyDerivation
  import opened KeyAgreementPsk
  import opened MikeyCipher

  // ---- a final field that is computed over everything before it ----

  /** The bytes of a message without the last n. */
  function AllBut(s: seq<byte>, n: nat): seq<byte>
    requires n <= |s|
  {
    s[..|s| - n]
  }

  /** Two payloads that differ only in their final field, of the same length. */
  ghost predicate SameHead(p: Payload, q: Payload, n: nat) {
    |Encode(p)| == |Encode(q)| && n <= |Encode(p)| && AllBut(Encode(p), n) == AllBut(Encode(q), n)
  }

  /** What lies before the final field does not depend on it. */
  lemma {:induction false} HeadOfMessage(ps: seq<Payload>, p: Payload, q: Payload, n: nat)
    requires SameHead(p, q, n)
    ensures |EncodeAll(ps + [p])| == |EncodeAll(ps + [q])| >= n
    ensures AllBut(EncodeAll(ps + [p]), n) == AllBut(EncodeAll(ps + [q]), n)
  {
    hide Encode, EncodeAll;
    EncodeAllSnoc(ps, p);
    EncodeAllSnoc(ps, q);
    var h := EncodeAll(ps);
    assert AllBut(h + Encode(p), n) == h + AllBut(Encode(p), n);
    assert AllBut(h + Encode(q), n) == h + AllBut(Encode(q), n);
  }

  lemma {:induction false} SameHeadKemac(next: byte, encrAlg: byte, encrData: seq<byte>, mac: seq<byte>, mac2: seq<byte>)
    requires |mac| == |mac2| == MAC_SIZE
    ensures SameHead(Kemac(next, encrAlg, encrData, MAC_HMAC_SHA1, mac), Kemac(next, encrAlg, encrData, MAC_HMAC_SHA1, mac2), MAC_SIZE)
  {
    hide Be;
    var h := [next, encrAlg] + Be(|encrData|, 2) + encrData + [MAC_HMAC_SHA1];
    assert AllBut(h + mac, MAC_SIZE) == h == AllBut(h + mac2, MAC_SIZE);
  }

  lemma {:induction false} SameHeadVer(next: byte, mac: seq<byte>, mac2: seq<byte>)
    requires |mac| == |mac2| == MAC_SIZE
    ensures SameHead(Ver(next, MAC_HMAC_SHA1, mac), Ver(next, MAC_HMAC_SHA1, mac2), MAC_SIZE)
  {
    var h := [next, MAC_HMAC_SHA1];
    assert AllBut(h + mac, MAC_SIZE) == h == AllBut(h + mac2, MAC_SIZE);
  }

  lemma {:induction false} SameHeadSign(sigType: byte, sig: seq<byte>, sig2: seq<byte>)
    requires |sig| == |sig2|
    ensures SameHead(Sign(LAST_PAYLOAD, sigType, sig), Sign(LAST_PAYLOAD, sigType, sig2), |sig|)
  {
    var h := [|sig| / 256 % 16 + sigType % 16 * 16, |sig| % 256];
    assert AllBut(h + sig, |sig|) == h == AllBut(h + sig2, |sig|);
  }

  /** addPayload, as a list whose last element is the new payload. */
  function Prefix(ps: seq<Payload>, payloadType: byte): (r: seq<Payload>)
    requires |ps| > 0
    ensures |r| == |ps|
  {
    ps[..|ps| - 1] + [SetNext(ps[|ps| - 1], payloadType)]
  }

  lemma {:induction false} PrefixTwice(ps: seq<Payload>, p: Payload)
    requires |ps| > 0 && TypeOf(p) != HDR_TYPE
    ensures 0 <= TypeOf(p) < 256
    ensures MikeyList.AddPayload(ps, p) == Prefix(ps, TypeOf(p)) + [p]
    ensures MikeyList.AddPayload(Prefix(ps, TypeOf(p)), p) == Prefix(ps, TypeOf(p)) + [p]
  {
    hide TypeOf;
    TypeRange(p);
    var n := |ps| - 1;
    var q := SetNext(ps[n], TypeOf(p));
    assert Prefix(ps, TypeOf(p))[..n] == ps[..n];
    SetNextTwice(ps[n], TypeOf(p));
  }

  lemma {:induction false} SetNextTwice(p: Payload, next: byte)
    ensures SetNext(SetNext(p, next), next) == SetNext(p, next)
  {
  }

  // ---- KEMAC ----

  /** The MAC over a message that ends with a KEMAC payload, all but the MAC field. */
  function KemacMac(hmac: Hmac, authKey: seq<byte>, raw: seq<byte>): (mac: seq<byte>)
    requires |raw| >= MAC_SIZE
    ensures |mac| == MAC_SIZE
  {
    hmac(authKey, AllBut(raw, MAC_SIZE))
  }

  /** What verifyMac answers. */
  function MacAccepted(hmac: Hmac, macAlg: byte, authKey: seq<byte>, received: seq<byte>, input: seq<byte>): bool {
    macAlg == MAC_NULL || hmac(authKey, input) == received
  }

  /** The receiver's condition: the first KEMAC payload carries the MAC of the received bytes. */
  predicate KemacAccepted(hmac: Hmac, authKey: seq<byte>, ps: seq<Payload>, raw: seq<byte>) {
    var p := Extract(ps, KEMAC_TYPE);
    p.Some? && p.value.Kemac? && p.value.macAlg <= MAC_HMAC_SHA1 && (p.value.macAlg == MAC_NULL ||
    (|raw| >= MAC_SIZE && MacAccepted(hmac, p.value.macAlg, authKey, p.value.mac, AllBut(raw, MAC_SIZE))))
  }

  /** The payload that addKemacPayload leaves at the end of the list. */
  ghost predicate IsKemacOf(q: Payload, before: seq<Payload>, hmac: Hmac, data: seq<byte>, encrKey: Key, iv: Key, authKey: seq<byte>,
                            encrAlg: byte, macAlg: byte)
    requires |before| > 0
  {
    q.Kemac? && q.next == LAST_PAYLOAD && q.encrAlg == encrAlg && q.encrData == Encrypted(encrAlg, encrKey, iv, data) &&
    q.macAlg == macAlg && MacOk(macAlg, q.mac) &&
    (macAlg == MAC_HMAC_SHA1 ==>
      var raw := EncodeAll(Prefix(before, KEMAC_TYPE) + [q]);
      |raw| >= MAC_SIZE && q.mac == KemacMac(hmac, authKey, raw))
  }

  /** addKemacPayload over the whole message (kemacOnly false). The MAC field holds whatever was on the stack
      while the MAC is computed. With an unknown algorithm only the next field of the last payload is set. */
  method AddKemacPayload(m: MikeyPayloads, hmac: Hmac, tgk: seq<byte>, encrKey: Key, iv: Key, authKey: seq<byte>, encrAlg: byte, macAlg: byte)
      returns (ok: bool)
    requires m.Valid() && |m.payloads| > 0 && Open(m.payloads) && |tgk| < TWO16
    modifies m
    ensures ok == (encrAlg <= ENCR_AES_CM && macAlg <= MAC_HMAC_SHA1)
    ensures !ok ==> m.payloads == Prefix(old(m.payloads), KEMAC_TYPE)
    ensures ok ==> m.Local() && |m.payloads| == |old(m.payloads)| + 1
    ensures ok ==>
      var q := m.payloads[|old(m.payloads)|];
      IsKemacOf(q, old(m.payloads), hmac, tgk, encrKey, iv, authKey, encrAlg, macAlg) &&
      m.payloads == Prefix(old(m.payloads), KEMAC_TYPE) + [q]
  {
    hide EncodeAll, Encode, AllOk, Linked;
    ghost var before := m.payloads;
    var n := |m.payloads|;
    SetLastNext(m, KEMAC_TYPE);
    if encrAlg > ENCR_AES_CM || macAlg > MAC_HMAC_SHA1 {
      return false;
    }
    var encrData := Encrypt(encrAlg, encrKey, iv, tgk);
    var macData := new byte[MAC_SIZE];
    var mac0 := if macAlg == MAC_HMAC_SHA1 then macData[..] else [];
    ghost var p := Kemac(LAST_PAYLOAD, encrAlg, encrData, macAlg, mac0);
    PrefixTwice(before, p);
    AddPayloadOk(before, p);
    m.AddPayload(Kemac(LAST_PAYLOAD, encrAlg, encrData, macAlg, mac0));
    if macAlg == MAC_HMAC_SHA1 {
      var macInput := m.RawMessageData();
      EncodeAllLengthAtLeast(Prefix(before, KEMAC_TYPE), p);
      var mac := hmac(authKey, AllBut(macInput[..], MAC_SIZE));
      SameHeadKemac(LAST_PAYLOAD, encrAlg, encrData, mac0, mac);
      HeadOfMessage(Prefix(before, KEMAC_TYPE), p, Kemac(LAST_PAYLOAD, encrAlg, encrData, macAlg, mac), MAC_SIZE);
      m.Update(n, Kemac(LAST_PAYLOAD, encrAlg, encrData, macAlg, mac));
    }
    m.compiled := false;
    return true;
  }

  lemma {:induction false} EncodeAllLengthAtLeast(ps: seq<Payload>, p: Payload)
    ensures |EncodeAll(ps + [p])| >= |Encode(p)|
    ensures p.Kemac? && p.macAlg == MAC_HMAC_SHA1 ==> |Encode(p)| >= |p.mac|
    ensures p.Ver? && p.macAlg == MAC_HMAC_SHA1 ==> |Encode(p)| >= |p.mac|
    ensures p.Sign? ==> |Encode(p)| >= |p.signature|
  {
    EncodeAllSnoc(ps, p);
  }

  /** last->setNextPayloadType */
  method SetLastNext(m: MikeyPayloads, payloadType: byte)
    requires |m.payloads| > 0 && AllOk(m.payloads)
    modifies m`payloads
    ensures m.payloads == Prefix(old(m.payloads), payloadType) && AllOk(m.payloads)
  {
    hide WellFormed;
    var n := |m.payloads| - 1;
    SetNextOk(m.payloads[n], payloadType);
    m.payloads := m.payloads[n := SetNext(m.payloads[n], payloadType)];
  }

  /** verifyMac, with the authentication key derived again. */
  method VerifyMac(psk: KeyAgreementPSK, macAlg: byte, receivedMac: seq<byte>, macInput: seq<byte>) returns (r: Result<bool, Error>)
    requires |psk.psk| >= 1
    ensures r == if macAlg > MAC_HMAC_SHA1 then Err(BadContent)
                 else Ok(MacAccepted(psk.ka.hmac, macAlg, psk.Transport(TransAuth, 20), receivedMac, macInput))
  {
    if macAlg == MAC_HMAC_SHA1 {
      var authKey := psk.GenTransp(TransAuth, 20);
      return Ok(psk.ka.hmac(authKey, macInput) == receivedMac);
    } else if macAlg == MAC_NULL {
      return Ok(true);
    }
    return Err(BadContent);
  }

  lemma {:induction false} ExtractedLength(ps: seq<Payload>, payloadType: int)
    requires AllOk(ps) && Extract(ps, payloadType).Some?
    ensures WellFormed(Extract(ps, payloadType).value)
    ensures TotalLength(ps) >= Length(Extract(ps, payloadType).value)
    decreases |ps|
  {
    hide WellFormed, Length, TypeOf, TotalLength;
    assert ps == [ps[0]] + ps[1..];
    EncodeAllConcat([ps[0]], ps[1..]);
    EncodeOne(ps[0]);
    if TypeOf(ps[0]) != payloadType {
      ExtractedLength(ps[1..], payloadType);
    }
  }

  lemma {:induction false} KindOf(p: Payload)
    ensures TypeOf(p) == KEMAC_TYPE <==> p.Kemac?
    ensures TypeOf(p) == V_TYPE <==> p.Ver?
    ensures TypeOf(p) == SIGN_TYPE <==> p.Sign?
    ensures TypeOf(p) == T_TYPE <==> p.Time?
    ensures TypeOf(p) == ID_TYPE <==> p.Id?
    ensures TypeOf(p) == HDR_TYPE <==> p.Hdr?
    ensures TypeOf(p) == SP_TYPE <==> p.Sp?
    ensures TypeOf(p) == RAND_TYPE <==> p.Rand?
    ensures TypeOf(p) == CERT_TYPE <==> p.Cert?
    ensures TypeOf(p) == DH_TYPE <==> p.Dh?
    ensures TypeOf(p) == KEYDATA_TYPE <==> p.KeyData?
  {
  }

  /** verifyKemac over the whole message. */
  method VerifyKemac(m: MikeyPayloads, psk: KeyAgreementPSK) returns (r: Result<bool, Error>)
    requires m.Valid() && TotalLength(m.payloads) == |m.Raw()| && |psk.psk| >= 1
    modifies m`rawData
    ensures m.Valid() && m.Raw() == old(m.Raw())
    ensures r.Ok? && r.value <==> KemacAccepted(psk.ka.hmac, psk.Transport(TransAuth, 20), m.payloads, m.Raw())
    ensures r.Err? <==> Extract(m.payloads, KEMAC_TYPE).None?
  {
    hide Length, TotalLength, WellFormed;
    var payload := m.ExtractPayload(KEMAC_TYPE);
    if payload == None {
      return Err(BadContent);
    }
    var kemac := payload.value;
    KindOf(kemac);
    ExtractedLength(m.payloads, KEMAC_TYPE);
    MacFits(kemac);
    var data := m.RawMessageData();
    var length := m.RawMessageLength();
    var macInput := data[..length];
    assert macInput == data[..];
    if kemac.macAlg == MAC_HMAC_SHA1 {
      r := VerifyMac(psk, kemac.macAlg, kemac.mac, AllBut(macInput, MAC_SIZE));
    } else {
      // the length of the MAC input plays no part
      r := VerifyMac(psk, kemac.macAlg, kemac.mac, []);
    }
  }

  lemma {:induction false} MacFits(p: Payload)
    requires WellFormed(p)
    ensures (p.Kemac? || p.Ver?) && p.macAlg == MAC_HMAC_SHA1 ==> Length(p) >= MAC_SIZE
    ensures p.Sign? ==> Length(p) >= |p.signature|
    ensures p.Kemac? || p.Ver? ==> p.macAlg <= MAC_HMAC_SHA1
  {
  }

  lemma {:induction false} ExtractFirst(a: seq<Payload>, p: Payload, payloadType: int)
    requires TypeOf(p) == payloadType && forall x :: x in a ==> TypeOf(x) != payloadType
    ensures Extract(a + [p], payloadType) == Some(p)
  {
    if |a| > 0 {
      assert (a + [p])[1..] == a[1..] + [p];
      ExtractFirst(a[1..], p, payloadType);
    }
  }

  /** A message finished by addKemacPayload is accepted by whoever derives the same authentication key. */
  lemma {:induction false} KemacVerifies(before: seq<Payload>, q: Payload, hmac: Hmac, data: seq<byte>, encrKey: Key, iv: Key,
                                         authKey: seq<byte>, encrAlg: byte, macAlg: byte)
    requires |before| > 0 && IsKemacOf(q, before, hmac, data, encrKey, iv, authKey, encrAlg, macAlg)
    requires forall x :: x in Prefix(before, KEMAC_TYPE) ==> TypeOf(x) != KEMAC_TYPE
    ensures var ps := Prefix(before, KEMAC_TYPE) + [q]; KemacAccepted(hmac, authKey, ps, EncodeAll(ps))
  {
    hide EncodeAll, Encrypted;
    ExtractFirst(Prefix(before, KEMAC_TYPE), q, KEMAC_TYPE);
  }

  /** Pre-shared keys of a multiple of 32 bytes that have all but the last 32 in common are the same key to this message:
      what is finished under one is accepted under the other. */
  lemma {:induction false} KemacVerifiesUnderTail(before: seq<Payload>, q: Payload, hmac: Hmac, data: seq<byte>, encrKey: Key, iv: Key,
                                                  csbId: nat, rand: seq<byte>, psk: seq<byte>, psk2: seq<byte>, encrAlg: byte, macAlg: byte)
    requires |psk| == |psk2| >= 1 && |psk| % PRF_KEY_CHUNK_LENGTH == 0 && Head(psk) == Head(psk2)
    requires |before| > 0 && forall x :: x in Prefix(before, KEMAC_TYPE) ==> TypeOf(x) != KEMAC_TYPE
    requires IsKemacOf(q, before, hmac, data, encrKey, iv, TransportKey(hmac, TransAuth, csbId, rand, psk, 20), encrAlg, macAlg)
    ensures var ps := Prefix(before, KEMAC_TYPE) + [q];
      KemacAccepted(hmac, TransportKey(hmac, TransAuth, csbId, rand, psk2, 20), ps, EncodeAll(ps))
  {
    hide KemacAccepted, IsKemacOf, Prefix, TransportKey;
    TransportTailUnused(hmac, TransAuth, csbId, rand, psk, psk2, 20);
    KemacVerifies(before, q, hmac, data, encrKey, iv, TransportKey(hmac, TransAuth, csbId, rand, psk, 20), encrAlg, macAlg);
  }

  // ---- V ----

  /** The MAC of a verification message covers the time stamp of the initiator after the message. */
  function VerMac(hmac: Hmac, authKey: seq<byte>, raw: seq<byte>, t: nat): (mac: seq<byte>)
    requires |raw| >= MAC_SIZE
    ensures |mac| == MAC_SIZE
  {
    hmac(authKey, AllBut(raw, MAC_SIZE) + Be(t, 8))
  }

  predicate VerAccepted(hmac: Hmac, authKey: seq<byte>, ps: seq<Payload>, raw: seq<byte>, t: nat) {
    var p := Extract(ps, V_TYPE);
    p.Some? && p.value.Ver? && p.value.macAlg <= MAC_HMAC_SHA1 && |raw| >= MAC_SIZE &&
    MacAccepted(hmac, p.value.macAlg, authKey, p.value.mac, AllBut(raw, MAC_SIZE) + Be(t, 8))
  }

  ghost predicate IsVerOf(q: Payload, before: seq<Payload>, hmac: Hmac, authKey: seq<byte>, macAlg: byte, t: nat)
    requires |before| > 0
  {
    q.Ver? && q.next == LAST_PAYLOAD && q.macAlg == macAlg && MacOk(macAlg, q.mac) &&
    (macAlg == MAC_HMAC_SHA1 ==>
      var raw := EncodeAll(Prefix(before, V_TYPE) + [q]);
      |raw| >= MAC_SIZE && q.mac == VerMac(hmac, authKey, raw, t))
  }

  /** addVPayload; with an unknown MAC algorithm only the next field of the last payload is set. */
  method AddVPayload(m: MikeyPayloads, hmac: Hmac, macAlg: byte, t: nat, authKey: seq<byte>) returns (ok: bool)
    requires m.Valid() && |m.payloads| > 0 && Open(m.payloads)
    modifies m
    ensures ok == (macAlg <= MAC_HMAC_SHA1)
    ensures !ok ==> m.payloads == Prefix(old(m.payloads), V_TYPE)
    ensures ok ==> m.Local() && |m.payloads| == |old(m.payloads)| + 1
    ensures ok ==>
      var q := m.payloads[|old(m.payloads)|];
      IsVerOf(q, old(m.payloads), hmac, authKey, macAlg, t) && m.payloads == Prefix(old(m.payloads), V_TYPE) + [q]
  {
    hide EncodeAll, Encode, AllOk, Linked, Be;
    ghost var before := m.payloads;
    var n := |m.payloads|;
    SetLastNext(m, V_TYPE);
    if macAlg > MAC_HMAC_SHA1 {
      return false;
    }
    var hmacOutput := new byte[MAC_SIZE];
    var mac0 := if macAlg == MAC_HMAC_SHA1 then hmacOutput[..] else [];
    ghost var p := Ver(LAST_PAYLOAD, macAlg, mac0);
    PrefixTwice(before, p);
    AddPayloadOk(before, p);
    m.AddPayload(Ver(LAST_PAYLOAD, macAlg, mac0));
    if macAlg == MAC_HMAC_SHA1 {
      var data := m.RawMessageData();
      EncodeAllLengthAtLeast(Prefix(before, V_TYPE), p);
      var hmacInput := AllBut(data[..], MAC_SIZE) + Be(t, 8);
      var mac := hmac(authKey, hmacInput);
      SameHeadVer(LAST_PAYLOAD, mac0, mac);
      HeadOfMessage(Prefix(before, V_TYPE), p, Ver(LAST_PAYLOAD, macAlg, mac), MAC_SIZE);
      m.Update(n, Ver(LAST_PAYLOAD, macAlg, mac));
    }
    m.compiled := false;
    return true;
  }

  /** verifyV, with the time stamp the initiator remembers. */
  method VerifyV(m: MikeyPayloads, psk: KeyAgreementPSK) returns (r: Result<bool, Error>)
    requires m.Valid() && TotalLength(m.payloads) == |m.Raw()| && |psk.psk| >= 1
    modifies m`rawData
    ensures m.Valid() && m.Raw() == old(m.Raw())
    ensures r.Ok? && r.value <==> VerAccepted(psk.ka.hmac, psk.Transport(TransAuth, 20), m.payloads, m.Raw(), psk.tSent)
    ensures r.Err? <==> Extract(m.payloads, V_TYPE).None? || |m.Raw()| < MAC_SIZE
  {
    hide Length, TotalLength, WellFormed, Be;
    var payload := m.ExtractPayload(V_TYPE);
    if payload == None {
      return Err(BadContent);
    }
    var ver := payload.value;
    KindOf(ver);
    ExtractedLength(m.payloads, V_TYPE);
    MacFits(ver);
    var data := m.RawMessageData();
    if data.Length < MAC_SIZE {
      // a negative number of bytes would be copied
      return Err(Overrun);
    }
    r := VerifyMac(psk, ver.macAlg, ver.mac, AllBut(data[..], MAC_SIZE) + Be(psk.tSent, 8));
  }

  /** The same for a verification message. */
  lemma {:induction false} VerVerifiesUnderTail(before: seq<Payload>, q: Payload, hmac: Hmac, csbId: nat, rand: seq<byte>, psk: seq<byte>,
                                                psk2: seq<byte>, macAlg: byte, t: nat)
    requires |psk| == |psk2| >= 1 && |psk| % PRF_KEY_CHUNK_LENGTH == 0 && Head(psk) == Head(psk2)
    requires |before| > 0 && forall x :: x in Prefix(before, V_TYPE) ==> TypeOf(x) != V_TYPE
    requires IsVerOf(q, before, hmac, TransportKey(hmac, TransAuth, csbId, rand, psk, 20), macAlg, t)
    requires |EncodeAll(Prefix(before, V_TYPE) + [q])| >= MAC_SIZE
    ensures var ps := Prefix(before, V_TYPE) + [q];
      VerAccepted(hmac, TransportKey(hmac, TransAuth, csbId, rand, psk2, 20), ps, EncodeAll(ps), t)
  {
    hide VerAccepted, IsVerOf, Prefix, TransportKey, EncodeAll;
    TransportTailUnused(hmac, TransAuth, csbId, rand, psk, psk2, 20);
    VerVerifies(before, q, hmac, TransportKey(hmac, TransAuth, csbId, rand, psk, 20), macAlg, t);
  }

  lemma {:induction false} VerVerifies(before: seq<Payload>, q: Payload, hmac: Hmac, authKey: seq<byte>, macAlg: byte, t: nat)
    requires |before| > 0 && IsVerOf(q, before, hmac, authKey, macAlg, t)
    requires forall x :: x in Prefix(before, V_TYPE) ==> TypeOf(x) != V_TYPE
    requires |EncodeAll(Prefix(before, V_TYPE) + [q])| >= MAC_SIZE
    ensures var ps := Prefix(before, V_TYPE) + [q]; VerAccepted(hmac, authKey, ps, EncodeAll(ps), t)
  {
    hide EncodeAll, Be;
    ExtractFirst(Prefix(before, V_TYPE), q, V_TYPE);
  }

  // ---- signatures ----

  const GUESSED_SIGNATURE_LENGTH := 128
  const RSA_PKCS: byte := 0

  /** A private key: the signature of a message, which may depend on a random choice. */
  type SignFunction = (int, seq<byte>) -> seq<byte>

  /** extractId among the payloads given. */
  function NthId(ps: seq<Payload>, index: nat): (r: Option<Payload>)
    ensures r.Some? ==> r.value.Id?
  {
    if |ps| == 0 then None
    else if ps[0].Id? then if index == 0 then Some(ps[0]) else NthId(ps[1..], index - 1)
    else NthId(ps[1..], index)
  }

  /** extractIdVec: the last payload of the message is not looked at. */
  function IdVec(ps: seq<Payload>, index: nat): seq<byte>
    requires |ps| > 0
  {
    var id := NthId(ps[..|ps| - 1], index);
    if id.Some? then id.value.idData else []
  }

  function IdsAndT(ps: seq<Payload>): Option<seq<byte>>
    requires |ps| > 0
  {
    var t := Extract(ps, T_TYPE);
    if t.Some? && t.value.Time? then Some(IdVec(ps, 0) + IdVec(ps, 1) + Be(t.value.ts, 8)) else None
  }

  /** What is signed: the message without the signature, and possibly both IDs and the time stamp. */
  function SignData(ps: seq<Payload>, raw: seq<byte>, sigLength: nat, useIdsT: bool): Option<seq<byte>>
    requires |ps| > 0 && sigLength <= |raw|
  {
    if !useIdsT then Some(AllBut(raw, sigLength))
    else if IdsAndT(ps).None? then None
    else Some(AllBut(raw, sigLength) + IdsAndT(ps).value)
  }

  method ExtractIdVec(ps: seq<Payload>, index: nat) returns (r: seq<byte>)
    requires |ps| > 0
    ensures r == IdVec(ps, index)
  {
    var j := 0;
    ghost var all := ps[..|ps| - 1];
    for i := 0 to |ps| - 1
      invariant j <= index && NthId(all, index) == NthId(all[i..], index - j)
    {
      assert all[i..][0] == ps[i] && all[i..][1..] == all[i + 1..];
      if ps[i].Id? {
        if j == index {
          return ps[i].idData;
        }
        j := j + 1;
      }
    }
    return [];
  }

  /** buildSignData */
  method BuildSignData(m: MikeyPayloads, sigLength: nat, useIdsT: bool) returns (r: Option<seq<byte>>)
    requires m.Valid() && |m.payloads| > 0 && sigLength <= |m.Raw()| == TotalLength(m.payloads)
    modifies m`rawData
    ensures m.Valid() && m.Raw() == old(m.Raw())
    ensures r == SignData(m.payloads, m.Raw(), sigLength, useIdsT)
  {
    hide TotalLength, WellFormed, Be;
    var data := m.RawMessageData();
    var length := m.RawMessageLength();
    var signData := data[..length - sigLength];
    if useIdsT {
      var vecIDi := ExtractIdVec(m.payloads, 0);
      var vecIDr := ExtractIdVec(m.payloads, 1);
      var t := m.ExtractPayload(T_TYPE);
      if t == None {
        return None;
      }
      KindOf(t.value);
      signData := signData + (vecIDi + vecIDr + Be(t.value.ts, 8));
    }
    return Some(signData);
  }

  /** The list while a signature of n bytes is still missing. */
  function Unsigned(ps: seq<Payload>, n: nat): (r: seq<Payload>)
    requires |ps| > 0
    ensures |r| == |ps| + 1
  {
    Prefix(ps, SIGN_TYPE) + [Sign(LAST_PAYLOAD, RSA_PKCS, ZeroBytes(n))]
  }

  lemma {:induction false} UnsignedLength(ps: seq<Payload>, n: nat)
    requires |ps| > 0
    ensures |EncodeAll(Unsigned(ps, n))| >= n
  {
    EncodeAllLengthAtLeast(Prefix(ps, SIGN_TYPE), Sign(LAST_PAYLOAD, RSA_PKCS, ZeroBytes(n)));
  }

  /** What is signed when the signature is expected to have n bytes. */
  function ToSign(ps: seq<Payload>, n: nat, useIdsT: bool): Option<seq<byte>>
    requires |ps| > 0
  {
    UnsignedLength(ps, n);
    SignData(Unsigned(ps, n), EncodeAll(Unsigned(ps, n)), n, useIdsT)
  }

  /** The length the first signature turns out to have. */
  function SignatureLength(ps: seq<Payload>, sign: SignFunction, r0: int, useIdsT: bool): nat
    requires |ps| > 0 && ToSign(ps, GUESSED_SIGNATURE_LENGTH, useIdsT).Some?
  {
    |sign(r0, ToSign(ps, GUESSED_SIGNATURE_LENGTH, useIdsT).value)|
  }

  lemma {:induction false} NthIdAppend(a: seq<Payload>, p: Payload, q: Payload)
    ensures (a + [p])[..|a|] == (a + [q])[..|a|]
  {
  }

  lemma {:induction false} ExtractTime(a: seq<Payload>, p: Payload, q: Payload)
    requires p.Sign? && q.Sign?
    ensures Extract(a + [p], T_TYPE) == Extract(a + [q], T_TYPE)
  {
    if |a| > 0 {
      assert (a + [p])[1..] == a[1..] + [p] && (a + [q])[1..] == a[1..] + [q];
      ExtractTime(a[1..], p, q);
    } else {
      assert (a + [p])[1..] == [] && (a + [q])[1..] == [];
    }
  }

  lemma {:induction false} SignDataHead(a: seq<Payload>, sig: seq<byte>, sig2: seq<byte>, useIdsT: bool)
    requires |sig| == |sig2|
    ensures var p, q := a + [Sign(LAST_PAYLOAD, RSA_PKCS, sig)], a + [Sign(LAST_PAYLOAD, RSA_PKCS, sig2)];
      |EncodeAll(p)| >= |sig| && |EncodeAll(q)| >= |sig| &&
      SignData(p, EncodeAll(p), |sig|, useIdsT) == SignData(q, EncodeAll(q), |sig|, useIdsT)
  {
    hide EncodeAll, Extract, NthId, Encode;
    var p, q := Sign(LAST_PAYLOAD, RSA_PKCS, sig), Sign(LAST_PAYLOAD, RSA_PKCS, sig2);
    SameHeadSign(RSA_PKCS, sig, sig2);
    HeadOfMessage(a, p, q, |sig|);
    NthIdAppend(a, p, q);
    ExtractTime(a, p, q);
  }

  lemma {:induction false} IdsAndTSame(a: seq<Payload>, p: Payload, q: Payload)
    requires p.Sign? && q.Sign?
    ensures IdsAndT(a + [p]) == IdsAndT(a + [q])
  {
    hide Extract, NthId, Be;
    NthIdAppend(a, p, q);
    ExtractTime(a, p, q);
  }

  /** One signature, over a message that ends with a signature payload whose contents are still arbitrary. */
  method SignMessage(m: MikeyPayloads, sign: SignFunction, r: int, n: nat, addIdsAndT: bool, ghost before: seq<Payload>, ghost dummy: seq<byte>)
      returns (signature: Option<seq<byte>>)
    requires |before| > 0 && |dummy| == n && m.Local()
    requires m.payloads == Prefix(before, SIGN_TYPE) + [Sign(LAST_PAYLOAD, RSA_PKCS, dummy)]
    modifies m`rawData
    ensures m.Local()
    ensures signature == var d := ToSign(before, n, addIdsAndT); if d.None? then None else Some(sign(r, d.value))
  {
    hide EncodeAll, AllOk, IdsAndT, ZeroBytes;
    SignDataHead(Prefix(before, SIGN_TYPE), dummy, ZeroBytes(n), addIdsAndT);
    EncodeAllLength(m.payloads);
    var signData := BuildSignData(m, n, addIdsAndT);
    if signData == None {
      return None;
    }
    return Some(sign(r, signData.value));
  }

  /** addSignaturePayload: a first signature for the guessed length, and if that guess was wrong a second one.
      r0 and r1 are the random choices of the two. */
  method AddSignaturePayload(m: MikeyPayloads, sign: SignFunction, r0: int, r1: int, addIdsAndT: bool) returns (ok: bool)
    requires m.Valid() && |m.payloads| > 0 && Open(m.payloads)
    requires forall r, x :: |sign(r, x)| < 4096
    modifies m
    ensures ok == ToSign(old(m.payloads), GUESSED_SIGNATURE_LENGTH, addIdsAndT).Some?
    ensures ok ==> m.Local() && ToSign(old(m.payloads), SignatureLength(old(m.payloads), sign, r0, addIdsAndT), addIdsAndT).Some?
    ensures ok ==>
      var n := SignatureLength(old(m.payloads), sign, r0, addIdsAndT);
      m.payloads == Prefix(old(m.payloads), SIGN_TYPE) +
        [Sign(LAST_PAYLOAD, RSA_PKCS, sign(if n == GUESSED_SIGNATURE_LENGTH then r0 else r1, ToSign(old(m.payloads), n, addIdsAndT).value))]
  {
    hide AllOk, Linked, ZeroBytes, SignData;
    ghost var before := m.payloads;
    var k := |m.payloads|;
    SetLastNext(m, SIGN_TYPE);
    ghost var dummy := ZeroBytes(GUESSED_SIGNATURE_LENGTH);
    PrefixTwice(before, Sign(LAST_PAYLOAD, RSA_PKCS, dummy));
    AddPayloadOk(before, Sign(LAST_PAYLOAD, RSA_PKCS, dummy));
    m.AddPayload(Sign(LAST_PAYLOAD, RSA_PKCS, ZeroBytes(GUESSED_SIGNATURE_LENGTH)));
    var signature := SignMessage(m, sign, r0, GUESSED_SIGNATURE_LENGTH, addIdsAndT, before, dummy);
    if signature == None {
      return false;
    }
    var n := |signature.value|;
    SameOutcome(before, GUESSED_SIGNATURE_LENGTH, n, addIdsAndT);
    if n != GUESSED_SIGNATURE_LENGTH {
      m.Update(k, Sign(LAST_PAYLOAD, RSA_PKCS, signature.value));
      dummy := signature.value;
      signature := SignMessage(m, sign, r1, n, addIdsAndT, before, dummy);
    }
    m.Update(k, Sign(LAST_PAYLOAD, RSA_PKCS, signature.value));
    m.compiled := false;
    return true;
  }

  lemma {:induction false} SameOutcome(ps: seq<Payload>, n: nat, k: nat, useIdsT: bool)
    requires |ps| > 0
    ensures ToSign(ps, n, useIdsT).Some? <==> ToSign(ps, k, useIdsT).Some?
  {
    hide EncodeAll, IdsAndT, ZeroBytes;
    IdsAndTSame(Prefix(ps, SIGN_TYPE), Sign(LAST_PAYLOAD, RSA_PKCS, ZeroBytes(n)), Sign(LAST_PAYLOAD, RSA_PKCS, ZeroBytes(k)));
  }

  /** verifySignature's condition, for a public key that checks signatures of messages. */
  predicate SignatureAccepted(verify: (seq<byte>, seq<byte>) -> bool, ps: seq<Payload>, raw: seq<byte>, useIdsT: bool) {
    |ps| > 0 && var p := Extract(ps, SIGN_TYPE);
    p.Some? && p.value.Sign? && |p.value.signature| <= |raw| &&
    var d := SignData(ps, raw, |p.value.signature|, useIdsT);
    d.Some? && verify(d.value, p.value.signature)
  }

  /** verifySignature; without a signature, or without the time stamp that is needed, it throws. */
  method VerifySignature(m: MikeyPayloads, verify: (seq<byte>, seq<byte>) -> bool, useIdsT: bool) returns (r: Result<bool, Error>)
    requires m.Valid() && |m.payloads| > 0 && TotalLength(m.payloads) == |m.Raw()|
    modifies m`rawData
    ensures m.Valid() && m.Raw() == old(m.Raw())
    ensures r.Ok? && r.value <==> SignatureAccepted(verify, m.payloads, m.Raw(), useIdsT)
    ensures r.Err? <==> Extract(m.payloads, SIGN_TYPE).None? || (useIdsT && IdsAndT(m.payloads).None?)
  {
    hide TotalLength, Length, WellFormed, IdsAndT;
    var payload := m.ExtractPayload(SIGN_TYPE);
    if payload == None {
      return Err(BadContent);
    }
    var sig := payload.value;
    KindOf(sig);
    ExtractedLength(m.payloads, SIGN_TYPE);
    MacFits(sig);
    var signData := BuildSignData(m, |sig.signature|, useIdsT);
    if signData == None {
      return Err(BadContent);
    }
    return Ok(verify(signData.value, sig.signature));
  }

  /** A key pair whose signatures all have n bytes and are accepted by the public key. */
  ghost predicate KeyPair(sign: SignFunction, verify: (seq<byte>, seq<byte>) -> bool, n: nat) {
    1 <= n < 4096 && forall r, x :: |sign(r, x)| == n && verify(x, sign(r, x))
  }

  /** The message that addSignaturePayload produces. */
  function Signed(ps: seq<Payload>, sign: SignFunction, r0: int, r1: int, useIdsT: bool): (r: seq<Payload>)
    requires |ps| > 0 && ToSign(ps, GUESSED_SIGNATURE_LENGTH, useIdsT).Some?
  {
    var n := SignatureLength(ps, sign, r0, useIdsT);
    SameOutcome(ps, GUESSED_SIGNATURE_LENGTH, n, useIdsT);
    Prefix(ps, SIGN_TYPE) +
      [Sign(LAST_PAYLOAD, RSA_PKCS, sign(if n == GUESSED_SIGNATURE_LENGTH then r0 else r1, ToSign(ps, n, useIdsT).value))]
  }

  /** Whatever fixed length the signatures have, the message verifies when it is received: its bytes parse to the
      same payloads, and the signature is over what the receiver rebuilds. */
  lemma {:induction false} SignatureVerifies(ps: seq<Payload>, sign: SignFunction, verify: (seq<byte>, seq<byte>) -> bool, n: nat,
                                             r0: int, r1: int, useIdsT: bool)
    requires |ps| > 0 && Open(ps) && KeyPair(sign, verify, n)
    requires ToSign(ps, GUESSED_SIGNATURE_LENGTH, useIdsT).Some?
    ensures var m := Signed(ps, sign, r0, r1, useIdsT);
      ParseList(TypeOf(ps[0]), EncodeAll(m)) == Ok(m) && SignatureAccepted(verify, m, EncodeAll(m), useIdsT)
  {
    hide EncodeAll, ZeroBytes, IdsAndT, ToSign, ParseList, AllOk, Linked, TypeOf;
    var m := Signed(ps, sign, r0, r1, useIdsT);
    var a, q := Prefix(ps, SIGN_TYPE), m[|ps|];
    SameOutcome(ps, GUESSED_SIGNATURE_LENGTH, n, useIdsT);
    SignedOk(ps, q);
    MessageRoundTrip(m);
    NoSignature(ps);
    KindOf(q);
    ExtractFirst(a, q, SIGN_TYPE);
    ToSignIs(ps, q.signature, useIdsT);
  }

  lemma {:induction false} ToSignIs(ps: seq<Payload>, sig: seq<byte>, useIdsT: bool)
    requires |ps| > 0
    ensures var m := Prefix(ps, SIGN_TYPE) + [Sign(LAST_PAYLOAD, RSA_PKCS, sig)];
      |EncodeAll(m)| >= |sig| && ToSign(ps, |sig|, useIdsT) == SignData(m, EncodeAll(m), |sig|, useIdsT)
  {
    hide EncodeAll, ZeroBytes, SignData;
    SignDataHead(Prefix(ps, SIGN_TYPE), sig, ZeroBytes(|sig|), useIdsT);
  }

  lemma {:induction false} SignedOk(ps: seq<Payload>, q: Payload)
    requires |ps| > 0 && Open(ps) && q.Sign? && q.next == LAST_PAYLOAD && WellFormed(q)
    ensures var m := Prefix(ps, SIGN_TYPE) + [q]; AllOk(m) && Linked(m) && TypeOf(m[0]) == TypeOf(ps[0])
  {
    hide AllOk, Linked;
    PrefixTwice(ps, q);
    AddPayloadOk(ps, q);
  }

  lemma {:induction false} NoSignature(ps: seq<Payload>)
    requires |ps| > 0 && Open(ps)
    ensures forall x :: x in Prefix(ps, SIGN_TYPE) ==> TypeOf(x) != SIGN_TYPE
  {
    hide TypeOf;
    var a := Prefix(ps, SIGN_TYPE);
    forall i | 0 <= i < |a|
      ensures TypeOf(a[i]) != SIGN_TYPE
    {
      KindOf(a[i]);
      if i < |ps| - 1 {
        assert LinkOk(ps[i], NextType(ps, i));
        TypeRange(ps[i + 1]);
      } else {
        SetNextOk(ps[i], SIGN_TYPE);
      }
    }
  }
}
