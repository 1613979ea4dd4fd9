/** The pre-shared key exchange: MikeyMessagePSK.cxx. */
module MikeyPsk {
  import opened Wrappers
  import opened Bytes
  import opened MikeyCrypto
  import opened MikeyPayload
  import opened MikeyList
  import opened MikeyMessage
  import opened KeyDerivation
  import opened KeyAgreement
  import opened KeyAgreementPsk
  import opened MikeyCipher
  import opened MikeyAuth
  import opened MikeyPolicy

  const RAND_SIZE := 16

  // ---- the initiator's message as a list of payloads ----

  function InitHdr(csbId: nat, nCs: byte, mapType: byte, m: seq<Cs>): Payload {
    Hdr(LAST_PAYLOAD, 1, PSK_INIT, true, 0, csbId, nCs, mapType, m)
  }

  function RespHdr(csbId: nat, nCs: byte, mapType: byte, m: seq<Cs>): Payload {
    Hdr(LAST_PAYLOAD, 1, PSK_RESP, false, 0, csbId, nCs, mapType, m)
  }

  /** A header and a time stamp. */
  function HeadList(h: Payload, t: nat): (r: seq<Payload>)
    ensures |r| == 2
  {
    MikeyList.AddPayload([h], Time(LAST_PAYLOAD, TS_NTP_UTC, t))
  }

  /** All payloads of the initiator's message but the KEMAC. */
  function InitBody(h: Payload, t: nat, policy: seq<Policy>, rand: seq<byte>): (r: seq<Payload>)
    ensures |r| >= 3
  {
    MikeyList.AddPayload(AddPolicy(HeadList(h, t), 2, policy), Rand(LAST_PAYLOAD, rand))
  }

  /** Lists that agree up to next fields. */
  ghost predicate Alike(a: seq<Payload>, b: seq<Payload>) {
    |a| == |b| && forall i :: 0 <= i < |a| ==> SameButNext(a[i], b[i])
  }

  lemma {:induction false} AlikeNext(ps: seq<Payload>, payloadType: byte)
    requires |ps| > 0
    ensures Alike(ps, Prefix(ps, payloadType))
  {
    hide SameButNext;
    SameNext(ps[|ps| - 1], payloadType);
    forall i | 0 <= i < |ps| - 1
      ensures SameButNext(ps[i], ps[i])
    {
      SameSelf(ps[i]);
    }
  }

  lemma {:induction false} SameSelf(p: Payload)
    ensures SameButNext(p, p)
  {
  }

  lemma {:induction false} AlikeTrans(a: seq<Payload>, b: seq<Payload>, c: seq<Payload>)
    requires Alike(a, b) && Alike(b, c)
    ensures Alike(a, c)
  {
    forall i | 0 <= i < |a|
      ensures SameButNext(a[i], c[i])
    {
      assert SameButNext(a[i], b[i]) && SameButNext(b[i], c[i]);
    }
  }

  /** The policies taken over do not depend on next fields. */
  lemma {:induction false} ReceivedAlike(a: seq<Payload>, b: seq<Payload>, policy: seq<Policy>)
    requires Alike(a, b)
    ensures Received(a, policy) == Received(b, policy)
    decreases |a|
  {
    hide SetAll, Entries;
    if |a| > 0 {
      assert SameButNext(a[0], b[0]);
      SameEntries(a[0], b[0]);
      forall i | 0 <= i < |a| - 1
        ensures SameButNext(a[1..][i], b[1..][i])
      {
        assert SameButNext(a[i + 1], b[i + 1]);
      }
      ReceivedAlike(a[1..], b[1..], if a[0].Sp? then SetAll(policy, Entries(a[0], 256)) else policy);
    }
  }

  lemma {:induction false} SameEntries(p: Payload, q: Payload)
    requires SameButNext(p, q)
    ensures p.Sp? <==> q.Sp?
    ensures p.Sp? ==> Entries(p, 256) == Entries(q, 256)
  {
    if p.Sp? {
      EntriesNext(p, q, 256);
    }
  }

  lemma {:induction false} EntriesNext(p: Payload, q: Payload, j: nat)
    requires p.Sp? && q.Sp? && SameButNext(p, q) && j <= 256
    ensures Entries(p, j) == Entries(q, j)
  {
    if j > 0 {
      EntriesNext(p, q, j - 1);
    }
  }

  /** The five parts of the initiator's message. */
  ghost predicate InitShape(f: seq<Payload>, h: Payload, t: nat, policy: seq<Policy>, rand: seq<byte>, k: Payload) {
    |f| >= 4 && SameButNext(f[0], h) && SameButNext(f[1], Time(0, TS_NTP_UTC, t)) &&
    SameButNext(f[|f| - 2], Rand(0, rand)) && f[|f| - 1] == k &&
    (forall i :: 2 <= i < |f| - 2 ==> f[i].Sp?) &&
    Alike(f[2..|f| - 2], AddPolicy(HeadList(h, t), 2, policy)[2..])
  }

  lemma {:induction false} TailAlike(l3: seq<Payload>, rand: seq<byte>, k: Payload)
    requires |l3| > 0
    ensures var f := Prefix(MikeyList.AddPayload(l3, Rand(LAST_PAYLOAD, rand)), KEMAC_TYPE) + [k];
      |f| == |l3| + 2 && Alike(f[..|l3|], l3) && SameButNext(f[|l3|], Rand(0, rand)) && f[|l3| + 1] == k
  {
    hide SameButNext;
    var l4 := MikeyList.AddPayload(l3, Rand(LAST_PAYLOAD, rand));
    assert l4 == Prefix(l3, RAND_TYPE) + [Rand(LAST_PAYLOAD, rand)];
    AlikeNext(l3, RAND_TYPE);
    AlikeNext(l4, KEMAC_TYPE);
    forall i | 0 <= i < |l3|
      ensures SameButNext(Prefix(l4, KEMAC_TYPE)[i], l3[i])
    {
      assert SameButNext(l3[i], Prefix(l3, RAND_TYPE)[i]) && SameButNext(l4[i], Prefix(l4, KEMAC_TYPE)[i]);
      SameChain(Prefix(l4, KEMAC_TYPE)[i], l4[i], l3[i]);
    }
    SameSymmetric(l4[|l3|], Prefix(l4, KEMAC_TYPE)[|l3|]);
  }

  lemma {:induction false} AlikeSlice(f: seq<Payload>, l: seq<Payload>, n: nat, i: nat)
    requires i <= n <= |f| && Alike(f[..n], l)
    ensures Alike(f[i..n], l[i..])
  {
    hide SameButNext;
    forall j | 0 <= j < n - i
      ensures SameButNext(f[i..n][j], l[i..][j])
    {
      assert f[..n][i + j] == f[i + j];
    }
  }

  lemma {:induction false} HeadAlike(h: Payload, t: nat)
    ensures SameButNext(HeadList(h, t)[0], h) && HeadList(h, t)[1] == Time(0, TS_NTP_UTC, t)
  {
  }

  lemma {:induction false} InitListShape(h: Payload, t: nat, policy: seq<Policy>, rand: seq<byte>, k: Payload)
    requires AllOk(HeadList(h, t)) && PolicyFits(policy)
    ensures InitShape(Prefix(InitBody(h, t, policy, rand), KEMAC_TYPE) + [k], h, t, policy, rand, k)
  {
    hide SameButNext, AllOk, PolicyFits, HeadList, Prefix, AddPolicy;
    var l2 := HeadList(h, t);
    var l3 := AddPolicy(l2, 2, policy);
    var f := Prefix(InitBody(h, t, policy, rand), KEMAC_TYPE) + [k];
    HeadAlike(h, t);
    AddPolicyOk(l2, policy);
    TailAlike(l3, rand, k);
    assert forall i :: 0 <= i < |l3| ==> f[i] == f[..|l3|][i];
    AlikeSlice(f, l3, |l3|, 2);
    SameChain2(f[0], l3[0], l2[0], h);
    SameChain(f[1], l3[1], l2[1]);
    forall i | 2 <= i < |l3|
      ensures f[i].Sp?
    {
      SameKind(f[i], l3[i]);
    }
  }

  lemma {:induction false} SameSymmetric(p: Payload, q: Payload)
    requires SameButNext(p, q)
    ensures SameButNext(q, p)
  {
  }

  /** p and q, and q and r, in either direction. */
  lemma {:induction false} SameChain(p: Payload, q: Payload, r: Payload)
    requires (SameButNext(p, q) || SameButNext(q, p)) && (SameButNext(q, r) || SameButNext(r, q))
    ensures SameButNext(p, r)
  {
  }

  lemma {:induction false} SameChain2(p: Payload, q: Payload, r: Payload, s: Payload)
    requires SameButNext(p, q) && (SameButNext(q, r) || SameButNext(r, q)) && SameButNext(r, s)
    ensures SameButNext(p, s)
  {
  }

  lemma {:induction false} HeadOk(h: Payload, t: nat)
    requires h.Hdr? && h.next == LAST_PAYLOAD && WellFormed(h) && t < TWO64
    ensures Open([h]) && Open(HeadList(h, t)) && TypeOf(HeadList(h, t)[0]) == HDR_TYPE
  {
    hide WellFormed;
    TimeOk(t);
    assert Open([h]);
    AddPayloadOk([h], Time(LAST_PAYLOAD, TS_NTP_UTC, t));
  }

  lemma {:induction false} TimeOk(t: nat)
    requires t < TWO64
    ensures WellFormed(Time(LAST_PAYLOAD, TS_NTP_UTC, t))
  {
  }

  lemma {:induction false} BodyOk(h: Payload, t: nat, policy: seq<Policy>, rand: seq<byte>)
    requires h.Hdr? && h.next == LAST_PAYLOAD && WellFormed(h) && t < TWO64 && PolicyFits(policy) && |rand| < 256
    ensures Open(InitBody(h, t, policy, rand))
  {
    hide WellFormed, PolicyFits;
    HeadOk(h, t);
    AddPolicyOk(HeadList(h, t), policy);
    RandOk(rand);
    AddPayloadOk(AddPolicy(HeadList(h, t), 2, policy), Rand(LAST_PAYLOAD, rand));
  }

  lemma {:induction false} RandOk(rand: seq<byte>)
    requires |rand| < 256
    ensures WellFormed(Rand(LAST_PAYLOAD, rand))
  {
  }

  // ---- the initiator's constructor ----

  function KeyDataBytes(tgk: seq<byte>): seq<byte> { Encode(KeyData(LAST_PAYLOAD, TGK, tgk)) }

  ghost predicate Ready(psk: KeyAgreementPSK)
    reads psk, psk.ka
  {
    psk.Valid() && PolicyFits(psk.ka.policy) && 1 <= |psk.ka.tgk| < TWO16 - 4 &&
    (psk.ka.csIdMap.Some? ==> psk.ka.nCs == |psk.ka.csIdMap.value|)
  }

  /** The header that the key agreement calls for. */
  ghost function HdrOf(ka: KeyAgreement): Payload
    requires ka.csIdMap.Some?
    reads ka`csbId, ka`nCs, ka`csIdMapType, ka`csIdMap
  {
    InitHdr(ka.csbId, ka.nCs, ka.csIdMapType, ka.csIdMap.value)
  }

  /** The KEMAC payload of the initiator's message: the key data encrypted and the message authenticated under
      keys derived from the pre-shared key. */
  ghost predicate IsInitKemac(k: Payload, body: seq<Payload>, psk: KeyAgreementPSK, t: nat, encrAlg: byte, macAlg: byte)
    requires |body| > 0 && |psk.psk| >= 1
    reads psk, psk.ka
  {
    IsKemacOf(k, body, psk.ka.hmac, KeyDataBytes(psk.ka.tgk), psk.Transport(TransEncr, 16), psk.Iv(t),
              if macAlg == MAC_HMAC_SHA1 then psk.Transport(TransAuth, 20) else [], encrAlg, macAlg)
  }

  lemma {:induction false} UnusedKeys(k: Payload, body: seq<Payload>, hmac: Hmac, data: seq<byte>, key: Key, iv: Key, key2: Key, iv2: Key,
                                      authKey: seq<byte>, encrAlg: byte, macAlg: byte)
    requires |body| > 0 && IsKemacOf(k, body, hmac, data, key, iv, authKey, encrAlg, macAlg)
    requires encrAlg == ENCR_AES_CM ==> key == key2 && iv == iv2
    ensures IsKemacOf(k, body, hmac, data, key2, iv2, authKey, encrAlg, macAlg)
  {
    hide EncodeAll, CtrBytes;
  }

  /** MikeyMessagePSK(ka, encrAlg, macAlg): the clock, the random bundle id and the random bytes are inputs. The
      constructor throws without a CS ID map and for unknown algorithms. */
  method CreateInit(psk: KeyAgreementPSK, encrAlg: byte, macAlg: byte, freshCsbId: nat, now: nat, random: seq<byte>)
      returns (m: MikeyPayloads, ok: bool)
    requires Ready(psk) && freshCsbId < TWO32 && now < TWO64 && |random| == RAND_SIZE
    modifies psk`tSent, psk`macAlg, psk`authKey, psk.ka`csbId, psk.ka`rand
    ensures fresh(m)
    ensures ok == (psk.ka.csIdMap.Some? && encrAlg <= ENCR_AES_CM && macAlg <= MAC_HMAC_SHA1)
    ensures ok ==> psk.ka.csbId == (if old(psk.ka.csbId) == 0 then freshCsbId else old(psk.ka.csbId))
    ensures ok ==> psk.ka.rand == Some(random) && psk.tSent == now && m.Local()
    ensures ok ==>
      var body := InitBody(HdrOf(psk.ka), now, psk.ka.policy, random);
      |m.payloads| == |body| + 1 && m.payloads == Prefix(body, KEMAC_TYPE) + [m.payloads[|body|]] && Open(body) &&
      IsInitKemac(m.payloads[|body|], body, psk, now, encrAlg, macAlg)
  {
    hide WellFormed, PolicyFits, AllOk, Linked, IsKemacOf, Open, InitBody, KeyDataBytes, Prefix, TransportKey, TransportIv, HdrOf;
    var ka := psk.ka;
    m := new MikeyPayloads();
    if ka.csbId == 0 {
      ka.csbId := freshCsbId;
    }
    if ka.csIdMap == None {
      return m, false;
    }
    AddBody(m, ka, now, random);
    psk.tSent := now;
    ka.rand := Some(random);
    ghost var body := m.payloads;
    var encrKey, iv;
    ok, encrKey, iv := psk.DeriveTranspKeys(encrAlg, macAlg, now, false);
    if !ok {
      return m, false;
    }
    KeyDataLength(ka.tgk);
    ok := AddKemacPayload(m, ka.hmac, KeyDataBytes(ka.tgk), encrKey, iv, psk.authKey, encrAlg, macAlg);
    UnusedKeys(m.payloads[|body|], body, ka.hmac, KeyDataBytes(ka.tgk), encrKey, iv, psk.Transport(TransEncr, 16), psk.Iv(now),
               psk.authKey, encrAlg, macAlg);
  }

  /** Header, time stamp, policies and random value. */
  method AddBody(m: MikeyPayloads, ka: KeyAgreement, now: nat, random: seq<byte>)
    requires m.Local() && m.payloads == [] && now < TWO64 && |random| == RAND_SIZE
    requires ka.csIdMap.Some? && PolicyFits(ka.policy) && ka.csbId < TWO32 && ka.nCs == |ka.csIdMap.value| && MapOk(ka.csIdMapType, ka.csIdMap.value)
    modifies m
    ensures m.Local() && m.payloads == InitBody(HdrOf(ka), now, ka.policy, random) && Open(m.payloads)
  {
    hide WellFormed, PolicyFits, Open, AllOk, Linked;
    ghost var h := HdrOf(ka);
    HdrOk(ka.csbId, ka.nCs, ka.csIdMapType, ka.csIdMap.value);
    HeadOk(h, now);
    BodyOk(h, now, ka.policy, random);
    AddHead(m, InitHdr(ka.csbId, ka.nCs, ka.csIdMapType, ka.csIdMap.value), now);
    AddPolicyToPayload(m, ka);
    RandOk(random);
    m.AddPayload(Rand(LAST_PAYLOAD, random));
    OpenOk(m.payloads);
  }

  lemma {:induction false} OpenOk(ps: seq<Payload>)
    requires Open(ps)
    ensures AllOk(ps) && Linked(ps)
  {
  }

  lemma {:induction false} HdrOk(csbId: nat, nCs: byte, mapType: byte, m: seq<Cs>)
    requires csbId < TWO32 && nCs == |m| && MapOk(mapType, m)
    ensures WellFormed(InitHdr(csbId, nCs, mapType, m)) && WellFormed(RespHdr(csbId, nCs, mapType, m))
  {
  }

  lemma {:induction false} KeyDataLength(tgk: seq<byte>)
    ensures |KeyDataBytes(tgk)| == 4 + |tgk|
  {
  }

  method AddHead(m: MikeyPayloads, h: Payload, t: nat)
    requires m.Valid() && m.payloads == [] && h.Hdr? && h.next == LAST_PAYLOAD && WellFormed(h) && t < TWO64
    modifies m
    ensures m.Local() && m.payloads == HeadList(h, t) && Open(m.payloads)
  {
    hide WellFormed, Linked, AllOk;
    HeadOk(h, t);
    TimeOk(t);
    OpenOk([h]);
    m.AddPayload(h);
    assert m.payloads == [h];
    m.AddPayload(Time(LAST_PAYLOAD, TS_NTP_UTC, t));
  }

  // ---- authentication ----

  /** authenticate() found nothing wrong: the state of the key agreement is the one after the call. */
  ghost predicate Accepted(psk: KeyAgreementPSK, ps: seq<Payload>, raw: seq<byte>)
    requires |ps| > 0 && ps[0].Hdr? && |psk.psk| >= 1
    reads psk, psk.ka
  {
    psk.ka.rand.Some? &&
    ((ps[0].dataType == PSK_INIT && TypeOf(ps[|ps| - 1]) == KEMAC_TYPE &&
      KemacAccepted(psk.ka.hmac, psk.Transport(TransAuth, 20), ps, raw)) ||
     (ps[0].dataType == PSK_RESP && psk.ka.csbId == ps[0].csbId &&
      VerAccepted(psk.ka.hmac, psk.Transport(TransAuth, 20), ps, raw, psk.tSent)))
  }

  /** The random value that authenticate() uses: the one already known, or else the one in the message. */
  function KnownRand(rand: Option<seq<byte>>, ps: seq<Payload>): Option<seq<byte>> {
    if rand.Some? then rand
    else
      var p := Extract(ps, RAND_TYPE);
      if p.Some? && p.value.Rand? then Some(p.value.randData) else None
  }

  /** authenticate(): a responder takes the random value and the bundle id from the message first. The result is
      true if authentication failed. */
  method Authenticate(m: MikeyPayloads, psk: KeyAgreementPSK) returns (r: Result<bool, Error>)
    requires m.Valid() && |m.payloads| > 0 && m.payloads[0].Hdr? && TotalLength(m.payloads) == |m.Raw()| && psk.Valid()
    modifies m`rawData, psk.ka`rand, psk.ka`csbId
    ensures m.Valid() && m.Raw() == old(m.Raw()) && psk.Valid()
    ensures psk.ka.rand == KnownRand(old(psk.ka.rand), m.payloads)
    ensures psk.ka.csbId == if psk.ka.rand.Some? && m.payloads[0].dataType == PSK_INIT && TypeOf(m.payloads[|m.payloads| - 1]) == KEMAC_TYPE
                            then m.payloads[0].csbId else old(psk.ka.csbId)
    ensures r == Ok(false) <==> Accepted(psk, m.payloads, m.Raw())
  {
    hide TotalLength, TypeOf, KemacAccepted, VerAccepted, MapOk, UniqueKeys, WellFormed, TransportKey, Extract, EncodeAll;
    if psk.ka.rand == None {
      var pl := m.ExtractPayload(RAND_TYPE);
      if pl == None {
        return Ok(true);
      }
      KindOf(pl.value);
      ExtractedLength(m.payloads, RAND_TYPE);
      RandFits(pl.value);
      psk.ka.rand := Some(pl.value.randData);
    }
    var h := m.payloads[0];
    if h.dataType == PSK_INIT {
      if TypeOf(m.payloads[|m.payloads| - 1]) != KEMAC_TYPE {
        return Err(BadContent);
      }
      HdrFits(h);
      psk.ka.csbId := h.csbId;
      var verified := VerifyKemac(m, psk);
      r := Failed(verified);
    } else if h.dataType == PSK_RESP {
      if psk.ka.csbId != h.csbId {
        return Ok(true);
      }
      var verified := VerifyV(m, psk);
      r := Failed(verified);
    } else {
      r := Err(BadContent);
    }
  }

  function Failed(verified: Result<bool, Error>): Result<bool, Error> {
    if verified.Ok? then Ok(!verified.value) else verified
  }

  lemma {:induction false} RandFits(p: Payload)
    requires WellFormed(p)
    ensures p.Rand? ==> |p.randData| < 256
  {
  }

  lemma {:induction false} HdrFits(p: Payload)
    requires WellFormed(p)
    ensures p.Hdr? ==> p.csbId < TWO32 && p.nCs == |p.map_| && MapOk(p.mapType, p.map_) && (p.mapType == MAP_SRTP || p.mapType == MAP_IPSEC4)
  {
  }

  // ---- what the responder takes from the offer ----

  function RemoveIfPresent(ps: seq<Payload>, payloadType: int): seq<Payload> {
    if Extract(ps, payloadType).Some? then Remove(ps, payloadType) else ps
  }

  /** What setOffer looks up first: the header, the time stamp, and the payloads that remain. */
  datatype OfferHead = OfferHead(h: Payload, t: Payload, rest: seq<Payload>)

  function HeadOf(ps: seq<Payload>): (r: Result<OfferHead, Error>)
    ensures r.Ok? ==> r.value.h.Hdr? && r.value.t.Time?
  {
    var h := Extract(ps, HDR_TYPE);
    if h.None? || !h.value.Hdr? || h.value.dataType != PSK_INIT then Err(BadContent)
    else if h.value.mapType != MAP_SRTP && h.value.mapType != MAP_IPSEC4 then Err(BadContent)
    else
      var ps1 := Remove(ps, HDR_TYPE);
      var t := Extract(ps1, T_TYPE);
      if t.None? || !t.value.Time? || t.value.tsType > TS_NTP then Err(BadContent)
      else Ok(OfferHead(h.value, t.value, Remove(ps1, T_TYPE)))
  }

  /** What it looks up when the security policies are gone: the random value and the KEMAC payload. */
  datatype OfferKeys = OfferKeys(rand: seq<byte>, kemac: Payload)

  function KeysOf(ps: seq<Payload>): (r: Result<OfferKeys, Error>)
    ensures r.Ok? ==> r.value.kemac.Kemac?
  {
    var rand := Extract(ps, RAND_TYPE);
    if rand.None? || !rand.value.Rand? then Err(AssertionFailed)
    else
      var kemac := Extract(RemoveIfPresent(Remove(ps, RAND_TYPE), ID_TYPE), KEMAC_TYPE);
      if kemac.None? || !kemac.value.Kemac? then Err(AssertionFailed)
      else Ok(OfferKeys(rand.value.randData, kemac.value))
  }

  /** decodePayloads of the KEMAC payload, and the first payload in it. */
  function DecodedKey(kemac: Payload, encrKey: Key, iv: Key): Result<seq<byte>, Error>
    requires kemac.Kemac?
  {
    var r := ParseList(KEYDATA_TYPE, Encrypted(kemac.encrAlg, encrKey, iv, kemac.encrData));
    if r.Err? then Err(r.error)
    else if |r.value| > 0 && r.value[0].KeyData? then Ok(r.value[0].keyData)
    else Err(AssertionFailed)
  }

  lemma {:induction false} RemoveOk(ps: seq<Payload>, payloadType: int)
    requires AllOk(ps)
    ensures AllOk(Remove(ps, payloadType))
  {
    hide WellFormed, TypeOf;
    if |ps| > 0 && TypeOf(ps[0]) != payloadType {
      RemoveOk(ps[1..], payloadType);
    }
  }

  /** The keys have been taken from the offer, or the error says why not. */
  ghost predicate KeysTaken(error: Option<Error>, psk: KeyAgreementPSK, o: OfferKeys)
    requires o.kemac.Kemac? && |psk.psk| >= 1
    reads psk, psk.ka
  {
    if o.kemac.encrAlg > ENCR_AES_CM || o.kemac.macAlg > MAC_HMAC_SHA1 then error == Some(BadContent)
    else
      psk.ka.rand == Some(o.rand) && psk.macAlg == o.kemac.macAlg &&
      psk.authKey == (if o.kemac.macAlg == MAC_HMAC_SHA1 then psk.Transport(TransAuth, 20) else []) &&
      var key := DecodedKey(o.kemac, psk.Transport(TransEncr, 16), psk.Iv(psk.tReceived));
      if key.Err? then error == Some(key.error) else error == None && psk.ka.tgk == key.value
  }

  /** setOffer: the responder's key agreement takes everything from the message; an error is reported for a message
      that lacks a payload or uses unknown algorithms. */
  method SetOffer(m: MikeyPayloads, psk: KeyAgreementPSK) returns (error: Option<Error>)
    requires m.Valid() && |psk.psk| >= 1
    modifies m`payloads, psk`v, psk`tReceived, psk`macAlg, psk`authKey, psk.ka
    ensures m.Valid()
    ensures var o := HeadOf(old(m.payloads));
      if o.Err? then error == Some(o.error)
      else
        psk.ka.nCs == o.value.h.nCs && psk.ka.csbId == o.value.h.csbId && psk.v == o.value.h.v &&
        psk.ka.csIdMap == Some(o.value.h.map_) && psk.ka.csIdMapType == o.value.h.mapType &&
        psk.tReceived == o.value.t.ts && psk.ka.policy == Received(o.value.rest, old(psk.ka.policy)) &&
        var k := KeysOf(DropSps(o.value.rest));
        if k.Err? then error == Some(k.error) else KeysTaken(error, psk, k.value)
  {
    hide WellFormed, Received, DropSps, KeysOf, KeysTaken, HeadOf;
    error := TakeHead(m, psk);
    if error == None {
      AddPolicyToKa(m, psk.ka);
      error := TakeKeys(m, psk);
    }
  }

  /** The first part of setOffer. */
  method TakeHead(m: MikeyPayloads, psk: KeyAgreementPSK) returns (error: Option<Error>)
    requires m.Valid()
    modifies m`payloads, psk`v, psk`tReceived, psk.ka`nCs, psk.ka`csbId, psk.ka`csIdMap, psk.ka`csIdMapType
    ensures m.Valid()
    ensures var o := HeadOf(old(m.payloads));
      if o.Err? then error == Some(o.error)
      else
        error == None && m.payloads == o.value.rest &&
        psk.ka.nCs == o.value.h.nCs && psk.ka.csbId == o.value.h.csbId && psk.v == o.value.h.v &&
        psk.ka.csIdMap == Some(o.value.h.map_) && psk.ka.csIdMapType == o.value.h.mapType && psk.tReceived == o.value.t.ts
  {
    hide WellFormed, TypeOf, Extract, Remove, AllOk;
    var ka := psk.ka;
    var i := m.ExtractPayload(HDR_TYPE);
    if i == None {
      return Some(BadContent);
    }
    var h := i.value;
    KindOf(h);
    if h.dataType != PSK_INIT {
      return Some(BadContent);
    }
    ka.nCs := h.nCs;
    ka.csbId := h.csbId;
    psk.v := h.v;
    if h.mapType != MAP_SRTP && h.mapType != MAP_IPSEC4 {
      return Some(BadContent);
    }
    ka.csIdMap := Some(h.map_);
    ka.csIdMapType := h.mapType;
    RemoveOk(m.payloads, HDR_TYPE);
    m.RemovePayload(HDR_TYPE);
    i := m.ExtractPayload(T_TYPE);
    if i == None {
      return Some(BadContent);
    }
    KindOf(i.value);
    if i.value.tsType > TS_NTP {
      // checkOffset cannot handle a counter
      return Some(BadContent);
    }
    psk.tReceived := i.value.ts;
    RemoveOk(m.payloads, T_TYPE);
    m.RemovePayload(T_TYPE);
    return None;
  }

  /** The second part of setOffer: the random value and the keys. */
  method TakeKeys(m: MikeyPayloads, psk: KeyAgreementPSK) returns (error: Option<Error>)
    requires m.Valid() && |psk.psk| >= 1
    modifies m`payloads, psk`macAlg, psk`authKey, psk.ka`rand, psk.ka`tgk
    ensures m.Valid()
    ensures var k := KeysOf(old(m.payloads)); if k.Err? then error == Some(k.error) else KeysTaken(error, psk, k.value)
  {
    hide WellFormed, TypeOf, DecodedKey, Extract, Remove, AllOk;
    var ka := psk.ka;
    var i := m.ExtractPayload(RAND_TYPE);
    if i == None {
      return Some(AssertionFailed);
    }
    KindOf(i.value);
    ka.rand := Some(i.value.randData);
    RemoveOk(m.payloads, RAND_TYPE);
    m.RemovePayload(RAND_TYPE);
    i := m.ExtractPayload(ID_TYPE);
    if i != None {
      RemoveOk(m.payloads, ID_TYPE);
      m.RemovePayload(ID_TYPE);
    }
    i := m.ExtractPayload(KEMAC_TYPE);
    if i == None {
      return Some(AssertionFailed);
    }
    KindOf(i.value);
    error := TakeTgk(psk, i.value);
  }

  /** Derives the transport keys and decrypts the TGK. */
  method TakeTgk(psk: KeyAgreementPSK, kemac: Payload) returns (error: Option<Error>)
    requires |psk.psk| >= 1 && kemac.Kemac?
    modifies psk`macAlg, psk`authKey, psk.ka`tgk
    ensures psk.ka.rand.Some? ==> KeysTaken(error, psk, OfferKeys(psk.ka.rand.value, kemac))
  {
    hide ParseList, TransportKey, TransportIv, Encrypted, WellFormed;
    psk.macAlg := kemac.macAlg;
    var ok, encrKey, iv := psk.DeriveTranspKeys(kemac.encrAlg, kemac.macAlg, psk.tReceived, true);
    if !ok {
      return Some(BadContent);
    }
    SameDecryption(kemac, encrKey, iv, psk.Transport(TransEncr, 16), psk.Iv(psk.tReceived));
    var decrData := Encrypt(kemac.encrAlg, encrKey, iv, kemac.encrData);
    var sub := ParsePayloads(KEYDATA_TYPE, decrData);
    if sub.Err? {
      return Some(sub.error);
    }
    ParseSound(KEYDATA_TYPE, decrData);
    KindOf(sub.value[0]);
    psk.ka.tgk := sub.value[0].keyData;
    return None;
  }

  lemma {:induction false} SameDecryption(kemac: Payload, key: Key, iv: Key, key2: Key, iv2: Key)
    requires kemac.Kemac? && (kemac.encrAlg == ENCR_AES_CM ==> key == key2 && iv == iv2)
    ensures Encrypted(kemac.encrAlg, key, iv, kemac.encrData) == Encrypted(kemac.encrAlg, key2, iv2, kemac.encrData)
  {
    hide CtrBytes;
  }

  // ---- the response ----

  /** What buildResponse puts in the message. */
  ghost predicate IsResponse(ps: seq<Payload>, psk: KeyAgreementPSK, authKey: seq<byte>, now: nat)
    requires psk.ka.csIdMap.Some?
    reads psk, psk.ka
  {
    var head := HeadList(RespHdr(psk.ka.csbId, psk.ka.nCs, psk.ka.csIdMapType, psk.ka.csIdMap.value), now);
    |ps| == 3 && ps == Prefix(head, V_TYPE) + [ps[2]] && IsVerOf(ps[2], head, psk.ka.hmac, authKey, psk.macAlg, psk.tReceived)
  }

  /** buildResponse: only if the initiator asked for a verification message, or for IPsec. The policies are added to
      the received message itself, not to the response. */
  method BuildResponse(m: MikeyPayloads, psk: KeyAgreementPSK, now: nat) returns (result: MikeyPayloads?, error: Option<Error>)
    requires m.Valid() && PolicyFits(psk.ka.policy) && now < TWO64
    requires psk.ka.csIdMap.Some? && psk.ka.csbId < TWO32 && psk.ka.nCs == |psk.ka.csIdMap.value| && MapOk(psk.ka.csIdMapType, psk.ka.csIdMap.value)
    modifies m, psk`authKey
    ensures psk.v || psk.ka.csIdMapType == MAP_IPSEC4 ==> error == if psk.macAlg <= MAC_HMAC_SHA1 then None else Some(BadContent)
    ensures !(psk.v || psk.ka.csIdMapType == MAP_IPSEC4) ==> error == None
    ensures result != null <==> error == None && (psk.v || psk.ka.csIdMapType == MAP_IPSEC4)
    ensures result != null ==> fresh(result) && result.Local() && IsResponse(result.payloads, psk, old(psk.authKey), now)
    ensures error == None ==> psk.authKey == []
  {
    hide WellFormed, PolicyFits, AllOk, Linked, IsVerOf, EncodeAll, MapOk;
    if psk.v || psk.ka.csIdMapType == MAP_IPSEC4 {
      var ka := psk.ka;
      var r := new MikeyPayloads();
      HdrOk(ka.csbId, ka.nCs, ka.csIdMapType, ka.csIdMap.value);
      AddHead(r, RespHdr(ka.csbId, ka.nCs, ka.csIdMapType, ka.csIdMap.value), now);
      AddPolicyToPayload(m, ka);
      var ok := AddVPayload(r, ka.hmac, psk.macAlg, psk.tReceived, psk.authKey);
      if !ok {
        return null, Some(BadContent);
      }
      psk.authKey := [];
      return r, None;
    }
    psk.authKey := [];
    return null, None;
  }

  /** What parseResponse looks up. */
  function ResponseOf(ps: seq<Payload>): (r: Result<OfferHead, Error>)
    ensures r.Ok? ==> r.value.h.Hdr?
  {
    var h := Extract(ps, HDR_TYPE);
    if h.None? || !h.value.Hdr? || h.value.dataType != PSK_RESP then Err(BadContent)
    else if h.value.mapType != MAP_SRTP && h.value.mapType != MAP_IPSEC4 then Err(BadContent)
    else
      var rest := Remove(ps, HDR_TYPE);
      var t := Extract(rest, T_TYPE);
      if t.None? || !t.value.Time? then Err(AssertionFailed)
      else if t.value.tsType > TS_NTP then Err(BadContent)
      else Ok(OfferHead(h.value, t.value, rest))
  }

  /** parseResponse */
  method ParseResponse(m: MikeyPayloads, psk: KeyAgreementPSK) returns (error: Option<Error>)
    requires m.Valid()
    modifies m`payloads, psk.ka`csIdMap, psk.ka`policy
    ensures m.Valid()
    ensures var o := ResponseOf(old(m.payloads));
      if o.Err? then error == Some(o.error)
      else error == None && psk.ka.csIdMap == Some(o.value.h.map_) && psk.ka.policy == Received(o.value.rest, old(psk.ka.policy))
  {
    hide WellFormed, TypeOf, Extract, Remove, AllOk, Received, DropSps;
    var i := m.ExtractPayload(HDR_TYPE);
    if i == None {
      return Some(BadContent);
    }
    var h := i.value;
    KindOf(h);
    if h.dataType != PSK_RESP {
      return Some(BadContent);
    }
    if h.mapType != MAP_SRTP && h.mapType != MAP_IPSEC4 {
      return Some(BadContent);
    }
    psk.ka.csIdMap := Some(h.map_);
    RemoveOk(m.payloads, HDR_TYPE);
    m.RemovePayload(HDR_TYPE);
    i := m.ExtractPayload(T_TYPE);
    if i == None {
      return Some(AssertionFailed);
    }
    KindOf(i.value);
    if i.value.tsType > TS_NTP {
      return Some(BadContent);
    }
    AddPolicyToKa(m, psk.ka);
    return None;
  }
}
