/** What the messages of the two exchanges contain, and what the receivers insist on, payload by payload. */
module MikeyContents {
  import opened Wrappers
  import opened Bytes
  import opened MikeyCrypto
  import opened MikeyPayload
  import opened MikeyList
  import opened KeyDerivation
  import opened KeyAgreement
  import opened KeyAgreementPsk
  import KeyAgreementDh
  import opened MikeyCipher
  import opened MikeyAuth
  import opened MikeyPolicy
  import opened MikeyPsk
  import MikeyDh
  import MikeyDhRun
  import MikeyCoverage

  lemma {:induction false} SameFields(p: Payload, q: Payload)
    requires SameButNext(p, q)
    ensures q.Hdr? ==> p == SetNext(q, p.next)
    ensures q.Time? ==> p == SetNext(q, p.next)
    ensures q.Rand? ==> p == SetNext(q, p.next)
    ensures q.Cert? ==> p == SetNext(q, p.next)
    ensures q.Dh? ==> p == SetNext(q, p.next)
  {
  }

  // ---- the pre-shared key exchange ----

  /** The initiator's message: a header of type 0 that asks for verification, the time, security policies, the random value, and
      the KEMAC payload. */
  lemma {:induction false} PskOffer(psk: KeyAgreementPSK, now: nat, random: seq<byte>, k: Payload, f: seq<Payload>)
    requires psk.ka.csIdMap.Some? && psk.ka.Valid() && psk.ka.nCs == |psk.ka.csIdMap.value| && PolicyFits(psk.ka.policy) && now < TWO64
    requires f == Prefix(InitBody(HdrOf(psk.ka), now, psk.ka.policy, random), KEMAC_TYPE) + [k]
    ensures var n := |f|;
      n >= 4 &&
      f[0] == Hdr(f[0].next, 1, 0, true, 0, psk.ka.csbId, psk.ka.nCs, psk.ka.csIdMapType, psk.ka.csIdMap.value) &&
      f[1] == Time(f[1].next, 0, now) && f[n - 2] == Rand(f[n - 2].next, random) && f[n - 1] == k &&
      forall i :: 2 <= i < n - 2 ==> f[i].Sp?
  {
    hide SameButNext, AllOk, PolicyFits, InitBody, Prefix, MapOk, UniqueKeys, WellFormed, HeadList;
    var h := HdrOf(psk.ka);
    HdrOk(psk.ka.csbId, psk.ka.nCs, psk.ka.csIdMapType, psk.ka.csIdMap.value);
    HeadOk(h, now);
    OpenOk(HeadList(h, now));
    InitListShape(h, now, psk.ka.policy, random, k);
    SameFields(f[0], h);
    SameFields(f[1], Time(0, TS_NTP_UTC, now));
    SameFields(f[|f| - 2], Rand(0, random));
  }

  /** Its KEMAC payload: a key data payload with the TGK, encrypted under the transport key and the initial counter block of
      the time stamp, and the MAC of the message under the authentication key. */
  lemma {:induction false} PskOfferKemac(psk: KeyAgreementPSK, body: seq<Payload>, now: nat, encrAlg: byte, macAlg: byte, k: Payload)
    requires |psk.psk| >= 1 && |body| > 0 && 1 <= |psk.ka.tgk| < TWO16 && IsInitKemac(k, body, psk, now, encrAlg, macAlg)
    ensures k.Kemac? && k.encrAlg == encrAlg && k.macAlg == macAlg && (macAlg == 0 ==> k.mac == [])
    ensures exists data: seq<byte> :: IsKeyData(data, psk.ka.tgk) && k.encrData == Encrypted(encrAlg, psk.Transport(TransEncr, 16), psk.Iv(now), data)
    ensures macAlg == 1 ==> var raw := EncodeAll(Prefix(body, KEMAC_TYPE) + [k]);
      |raw| >= 20 && k.mac == psk.ka.hmac(psk.Transport(TransAuth, 20), raw[..|raw| - 20])
  {
    hide EncodeAll, Prefix, Encrypted, TransportKey, TransportIv, Be, KemacMac;
    var tgk := psk.ka.tgk;
    var data := KeyDataBytes(tgk);
    KeyDataIs(tgk);
    if macAlg == 1 {
      MikeyCoverage.MacInputs(psk.ka.hmac, psk.Transport(TransAuth, 20), EncodeAll(Prefix(body, KEMAC_TYPE) + [k]), 0);
    }
  }

  /** A key data payload: no next payload, a TGK with null key validity, its length in 16 bits, and the TGK. */
  predicate IsKeyData(data: seq<byte>, tgk: seq<byte>) {
    |data| == 4 + |tgk| && data[0] == 0 && data[1] == 0 && data[2] as int * 256 + data[3] as int == |tgk| && data[4..] == tgk
  }

  lemma {:induction false} KeyDataIs(tgk: seq<byte>)
    requires |tgk| < TWO16
    ensures IsKeyData(KeyDataBytes(tgk), tgk)
  {
    hide Be;
    var b, data := Be(|tgk|, 2), KeyDataBytes(tgk);
    LengthBytes(|tgk|);
    assert data[2] == b[0] && data[3] == b[1];
  }

  lemma {:induction false} LengthBytes(n: nat)
    requires n < TWO16
    ensures var b := Be(n, 2); b[0] as int * 256 + b[1] as int == n
  {
    hide Be, Number;
    Field16(n);
    var b := Be(n, 2);
    assert Number(b) == b[0] as int * 256 + b[1] as int by { TwoDigits(b); }
  }

  lemma {:induction false} TwoDigits(b: seq<byte>)
    requires |b| == 2
    ensures Number(b) == b[0] as int * 256 + b[1] as int
  {
    assert b[..1][..0] == [];
    assert Number(b[..1]) == b[0];
  }

  /** The response: a header of type 1 with the responder's map, the time, and a V payload whose MAC covers the time stamp of
      the offer after the message. */
  lemma {:induction false} PskAnswer(psk: KeyAgreementPSK, authKey: seq<byte>, now: nat, ps: seq<Payload>)
    requires psk.ka.csIdMap.Some? && IsResponse(ps, psk, authKey, now)
    ensures |ps| == 3 && ps[0] == Hdr(ps[0].next, 1, 1, false, 0, psk.ka.csbId, psk.ka.nCs, psk.ka.csIdMapType, psk.ka.csIdMap.value)
    ensures ps[1] == Time(ps[1].next, 0, now) && ps[2].Ver? && ps[2].macAlg == psk.macAlg
    ensures psk.macAlg == 1 ==> var raw := EncodeAll(ps);
      |raw| >= 20 && ps[2].mac == psk.ka.hmac(authKey, raw[..|raw| - 20] + Be(psk.tReceived, 8))
  {
    hide EncodeAll, VerMac, Be, SameButNext;
    var h := RespHdr(psk.ka.csbId, psk.ka.nCs, psk.ka.csIdMapType, psk.ka.csIdMap.value);
    HeadAlike(h, now);
    AlikeNext(HeadList(h, now), V_TYPE);
    SameFields(ps[0], h) by { SameChain(ps[0], HeadList(h, now)[0], h); }
    if psk.macAlg == 1 {
      MikeyCoverage.MacInputs(psk.ka.hmac, authKey, EncodeAll(ps), psk.tReceived);
    }
  }

  /** What authenticate() accepts: an offer must end with a KEMAC payload that is accepted; a response must have the bundle id
      that is known and a V payload that is accepted; nothing else is. A random value must be known or in the message. */
  lemma {:induction false} PskAccepted(psk: KeyAgreementPSK, ps: seq<Payload>, raw: seq<byte>)
    requires |ps| > 0 && ps[0].Hdr? && |psk.psk| >= 1 && Accepted(psk, ps, raw)
    ensures psk.ka.rand.Some? && (ps[0].dataType == 0 || ps[0].dataType == 1)
    ensures ps[0].dataType == 0 ==> ps[|ps| - 1].Kemac? && KemacAccepted(psk.ka.hmac, psk.Transport(TransAuth, 20), ps, raw)
    ensures ps[0].dataType == 1 ==> psk.ka.csbId == ps[0].csbId && VerAccepted(psk.ka.hmac, psk.Transport(TransAuth, 20), ps, raw, psk.tSent)
  {
    KindOf(ps[|ps| - 1]);
  }

  /** What setOffer and parseResponse insist on. */
  lemma {:induction false} PskTaken(ps: seq<Payload>)
    ensures HeadOf(ps).Ok? ==> var o := HeadOf(ps).value;
      Extract(ps, HDR_TYPE) == Some(o.h) && o.h.dataType == 0 && (o.h.mapType == 0 || o.h.mapType == 7) &&
      Extract(Remove(ps, HDR_TYPE), T_TYPE) == Some(o.t) && o.t.tsType <= 1 && o.rest == Remove(Remove(ps, HDR_TYPE), T_TYPE)
    ensures ResponseOf(ps).Ok? ==> var o := ResponseOf(ps).value;
      Extract(ps, HDR_TYPE) == Some(o.h) && o.h.dataType == 1 && (o.h.mapType == 0 || o.h.mapType == 7) &&
      Extract(Remove(ps, HDR_TYPE), T_TYPE) == Some(o.t) && o.t.Time? && o.t.tsType <= 1 && o.rest == Remove(ps, HDR_TYPE)
    ensures KeysOf(ps).Ok? ==> var k := KeysOf(ps).value;
      Extract(ps, RAND_TYPE).Some? && Extract(ps, RAND_TYPE).value.Rand? && Extract(ps, RAND_TYPE).value.randData == k.rand
  {
    hide Extract, Remove, TypeOf;
  }

  // ---- the Diffie-Hellman exchange ----

  /** The initiator's message: header, time, policies, random value, certificates in their order, the public key, and the
      signature. */
  lemma {:induction false} DhOffer(f: seq<Payload>, ka: KeyAgreement, now: nat, sps: seq<Payload>, random: seq<byte>, certs: seq<seq<byte>>, group: byte,
                                   key: seq<byte>, s: Payload)
    requires ka.csIdMap.Some?
    requires MikeyDhRun.Shape(f, MikeyDh.HdrFor(ka, DH_INIT, true), now, sps, MikeyDh.OfferItems(random, certs, group, key), s)
    ensures var o := |sps| + 2;
      |f| == o + |certs| + 3 && f[0] == Hdr(f[0].next, 1, 4, true, 0, ka.csbId, ka.nCs, ka.csIdMapType, ka.csIdMap.value) &&
      f[1] == Time(f[1].next, 0, now) && f[o] == Rand(f[o].next, random) &&
      (forall i :: 0 <= i < |certs| ==> f[o + 1 + i] == Cert(f[o + 1 + i].next, 2, certs[i])) &&
      f[o + 1 + |certs|] == Dh(f[o + 1 + |certs|].next, group, key) && f[o + 2 + |certs|] == s
  {
    hide SameButNext;
    var items, o := MikeyDh.OfferItems(random, certs, group, key), |sps| + 2;
    SameFields(f[0], MikeyDh.HdrFor(ka, DH_INIT, true));
    SameFields(f[1], Time(0, TS_NTP_UTC, now));
    forall i | 0 <= i < |items|
      ensures f[o + i] == SetNext(items[i], f[o + i].next)
    {
      assert f[o..|f| - 1][i] == f[o + i];
      assert SameButNext(f[o + i], items[i]);
      SameFields(f[o + i], items[i]);
    }
    forall i | 0 <= i < |certs|
      ensures f[o + 1 + i] == Cert(f[o + 1 + i].next, 2, certs[i])
    {
      assert f[o + (1 + i)] == SetNext(items[1 + i], f[o + (1 + i)].next);
    }
    assert f[o + (1 + |certs|)] == SetNext(items[1 + |certs|], f[o + (1 + |certs|)].next);
  }

  /** The response: header of type 5, time, certificates, the responder's key, the initiator's key, and the signature. */
  lemma {:induction false} DhAnswer(f: seq<Payload>, ka: KeyAgreement, now: nat, certs: seq<seq<byte>>, group: byte, key: seq<byte>, peerKey: seq<byte>,
                                    s: Payload)
    requires ka.csIdMap.Some?
    requires MikeyDhRun.Shape(f, MikeyDh.HdrFor(ka, DH_RESP, false), now, [], MikeyDh.AnswerItems(certs, group, key, peerKey), s)
    ensures |f| == |certs| + 5 && f[0] == Hdr(f[0].next, 1, 5, false, 0, ka.csbId, ka.nCs, ka.csIdMapType, ka.csIdMap.value)
    ensures f[1] == Time(f[1].next, 0, now) && forall i :: 0 <= i < |certs| ==> f[2 + i] == Cert(f[2 + i].next, 2, certs[i])
    ensures f[2 + |certs|] == Dh(f[2 + |certs|].next, group, key) && f[3 + |certs|] == Dh(f[3 + |certs|].next, group, peerKey)
    ensures f[4 + |certs|] == s
  {
    hide SameButNext;
    var items := MikeyDh.AnswerItems(certs, group, key, peerKey);
    SameFields(f[0], MikeyDh.HdrFor(ka, DH_RESP, false));
    SameFields(f[1], Time(0, TS_NTP_UTC, now));
    forall i | 0 <= i < |items|
      ensures f[2 + i] == SetNext(items[i], f[2 + i].next)
    {
      assert f[2..|f| - 1][i] == f[2 + i];
      assert SameButNext(f[2 + i], items[i]);
      SameFields(f[2 + i], items[i]);
    }
    forall i | 0 <= i < |certs|
      ensures f[2 + i] == Cert(f[2 + i].next, 2, certs[i])
    {
      assert f[2 + i] == SetNext(items[i], f[2 + i].next);
    }
    assert f[2 + |certs|] == SetNext(items[|certs|], f[2 + |certs|].next);
    assert f[2 + (|certs| + 1)] == SetNext(items[|certs| + 1], f[2 + (|certs| + 1)].next);
  }

  /** What setOffer and parseResponse insist on. */
  lemma {:induction false} DhTaken(ps: seq<Payload>)
    ensures MikeyDh.OfferOf(ps).Ok? ==> var o := MikeyDh.OfferOf(ps).value;
      Extract(ps, HDR_TYPE) == Some(o.h) && o.h.dataType == 4 && (o.h.mapType == 0 || o.h.mapType == 7) &&
      o.later == Remove(DropSps(o.rest), RAND_TYPE) && Extract(o.later, DH_TYPE) == Some(o.dh)
    ensures MikeyDh.AnswerOf(ps).Ok? ==> var o := MikeyDh.AnswerOf(ps).value;
      Extract(ps, HDR_TYPE) == Some(o.h) && o.h.dataType == 5 && (o.h.mapType == 0 || o.h.mapType == 7) &&
      o.later == DropSps(o.rest) && Extract(o.later, DH_TYPE) == Some(o.first) && Extract(Remove(o.later, DH_TYPE), DH_TYPE) == Some(o.second)
  {
    hide Extract, Remove, TypeOf, DropSps;
  }

  /** Of the two keys in a response, one must be the own public key, and the other one is taken. */
  lemma {:induction false} PeerKeyTaken(own: seq<byte>, first: seq<byte>, second: seq<byte>, peer: seq<byte>)
    ensures KeyAgreementDh.PeerKeyOf(own, first, second) == Some(peer) <==> (first == own && second == peer) || (second == own && first == peer)
  {
  }
}
