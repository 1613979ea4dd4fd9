/** A complete honest run of the pre-shared key exchange. */
module MikeyPskRun {
  import opened Wrappers
  import opened Bytes
  import opened MikeyCrypto
  import opened MikeyPayload
  import opened MikeyList
  import opened MikeyMessage
  import opened KeyDerivation
  import opened KeyAgreement
  import opened KeyAgreementPsk
  import opened MikeyCipher
  import opened MikeyAuth
  import opened MikeyPolicy
  import opened MikeyPsk
  import opened MikeyStreams
  import Base64

  // ---- what the responder finds in the initiator's message ----

  lemma {:induction false} DropAll(a: seq<Payload>, b: seq<Payload>)
    requires forall i :: 0 <= i < |a| ==> a[i].Sp?
    ensures DropSps(a + b) == DropSps(b)
    decreases |a|
  {
    if |a| > 0 {
      assert (a + b)[1..] == a[1..] + b;
      DropAll(a[1..], b);
    } else {
      assert a + b == b;
    }
  }

  lemma {:induction false} ExtractLater(ps: seq<Payload>, payloadType: int)
    requires |ps| > 0 && TypeOf(ps[0]) != payloadType
    ensures Extract(ps, payloadType) == Extract(ps[1..], payloadType)
  {
  }

  lemma {:induction false} LastTwo(r: Payload, k: Payload, policy: seq<Policy>)
    requires r.Rand? && k.Kemac?
    ensures DropSps([r, k]) == [r, k] && KeysOf([r, k]) == Ok(OfferKeys(r.randData, k)) && Received([r, k], policy) == policy
  {
    assert [r, k][1..] == [k] && [k][1..] == [];
    assert Remove([r, k], RAND_TYPE) == [k];
    assert Extract([k], ID_TYPE) == None && Extract([k], KEMAC_TYPE) == Some(k);
    assert DropSps([k]) == [k];
    assert Received([k], policy) == policy;
  }

  lemma {:induction false} RandAfterSps(a: seq<Payload>, r: Payload, k: Payload)
    requires r.Rand? && forall i :: 0 <= i < |a| ==> a[i].Sp?
    ensures Extract(a + [r, k], RAND_TYPE) == Some(r)
    decreases |a|
  {
    if |a| > 0 {
      assert (a + [r, k])[1..] == a[1..] + [r, k];
      RandAfterSps(a[1..], r, k);
    } else {
      assert a + [r, k] == [r, k];
    }
  }

  /** Headers with the same contents. */
  predicate SameHdr(p: Payload, q: Payload) {
    p.Hdr? && q.Hdr? && p.dataType == q.dataType && p.v == q.v && p.csbId == q.csbId && p.nCs == q.nCs && p.mapType == q.mapType &&
    p.map_ == q.map_
  }

  lemma {:induction false} NextFields(p: Payload, q: Payload)
    requires SameButNext(p, q)
    ensures TypeOf(p) == TypeOf(q)
    ensures q.Hdr? ==> SameHdr(p, q)
    ensures q.Time? ==> p.Time? && p.ts == q.ts && p.tsType == q.tsType
    ensures q.Rand? ==> p.Rand? && p.randData == q.randData
  {
    assert TypeOf(SetNext(p, 0)) == TypeOf(p) && TypeOf(SetNext(q, 0)) == TypeOf(q);
  }

  lemma {:induction false} HeadLookups(f: seq<Payload>)
    requires |f| >= 2 && f[0].Hdr? && f[1].Time? && f[1].tsType == TS_NTP_UTC && (f[0].mapType == MAP_SRTP || f[0].mapType == MAP_IPSEC4)
    ensures f[0].dataType == PSK_INIT ==> HeadOf(f) == Ok(OfferHead(f[0], f[1], f[2..]))
    ensures f[0].dataType == PSK_RESP ==> ResponseOf(f) == Ok(OfferHead(f[0], f[1], f[1..]))
  {
    assert f[1..][1..] == f[2..] && f[1..][0] == f[1];
  }

  lemma {:induction false} TailLookups(f: seq<Payload>, policy: seq<Policy>)
    requires |f| >= 4 && f[|f| - 2].Rand? && f[|f| - 1].Kemac? && forall i :: 2 <= i < |f| - 2 ==> f[i].Sp?
    ensures KeysOf(DropSps(f[2..])) == Ok(OfferKeys(f[|f| - 2].randData, f[|f| - 1]))
    ensures Received(f[2..], policy) == Received(f[2..|f| - 2], policy)
    ensures Extract(f[2..], RAND_TYPE) == Some(f[|f| - 2])
  {
    hide KeysOf, Received, DropSps, Extract;
    var n := |f|;
    var a, r, k := f[2..n - 2], f[n - 2], f[n - 1];
    ThreeParts(f);
    RandAfterSps(a, r, k);
    DropAll(a, [r, k]);
    ReceivedConcat(a, [r, k], policy);
    LastTwo(r, k, Received(a, policy));
  }

  lemma {:induction false} RandLookup(f: seq<Payload>)
    requires |f| >= 2 && f[0].Hdr? && f[1].Time? && Extract(f[2..], RAND_TYPE).Some?
    ensures Extract(f, RAND_TYPE) == Extract(f[2..], RAND_TYPE)
  {
    assert f[1..][1..] == f[2..] && f[1..][0] == f[1];
    ExtractLater(f, RAND_TYPE);
    ExtractLater(f[1..], RAND_TYPE);
  }

  /** Every look-up of the responder in the message finds what the initiator put there. */
  lemma {:induction false} InitLookups(f: seq<Payload>, h: Payload, t: nat, policy: seq<Policy>, rand: seq<byte>, k: Payload)
    requires InitShape(f, h, t, policy, rand, k) && k.Kemac? && h.Hdr? && h.dataType == PSK_INIT
    requires h.mapType == MAP_SRTP || h.mapType == MAP_IPSEC4
    ensures SameHdr(f[0], h) && f[1].Time? && f[1].ts == t && HeadOf(f) == Ok(OfferHead(f[0], f[1], f[2..]))
    ensures KeysOf(DropSps(f[2..])) == Ok(OfferKeys(rand, k))
    ensures Received(f[2..], []) == Received(AddPolicy(HeadList(h, t), 2, policy)[2..], [])
    ensures KnownRand(None, f) == Some(rand) && TypeOf(f[|f| - 1]) == KEMAC_TYPE
  {
    hide SameButNext, KeysOf, Received, DropSps, HeadOf, HeadList, AddPolicy, Extract;
    NextFields(f[0], h);
    NextFields(f[1], Time(0, TS_NTP_UTC, t));
    NextFields(f[|f| - 2], Rand(0, rand));
    HeadLookups(f);
    TailLookups(f, []);
    RandLookup(f);
    ReceivedAlike(f[2..|f| - 2], AddPolicy(HeadList(h, t), 2, policy)[2..], []);
  }

  lemma {:induction false} ThreeParts<T>(f: seq<T>)
    requires |f| >= 4
    ensures f[2..] == f[2..|f| - 2] + [f[|f| - 2], f[|f| - 1]]
  {
  }

  // ---- the policies the responder ends up with fit their payloads again ----

  function Share(e: Policy, no: byte, prot: byte): nat { if e.policyNo == no && e.protType == prot then 2 + |e.value| else 0 }

  lemma {:induction false} GroupConcat(a: seq<Policy>, b: seq<Policy>, no: byte, prot: byte)
    ensures GroupLength(a + b, no, prot) == GroupLength(a, no, prot) + GroupLength(b, no, prot)
    decreases |b|
  {
    if |b| == 0 {
      assert a + b == a;
    } else {
      var n := |b| - 1;
      GroupConcat(a, b[..n], no, prot);
      assert a + b == (a + b[..n]) + [b[n]];
      GroupStep(a + b[..n], b[n], no, prot);
    }
  }

  lemma {:induction false} GroupOne(e: Policy, no: byte, prot: byte)
    ensures GroupLength([e], no, prot) == Share(e, no, prot)
  {
    assert [e] == [] + [e];
    GroupStep([], e, no, prot);
  }

  function Without1(b: seq<Policy>, i: nat): seq<Policy>
    requires i < |b|
  {
    b[..i] + b[i + 1..]
  }

  lemma {:induction false} GroupWithout(b: seq<Policy>, i: nat, no: byte, prot: byte)
    requires i < |b|
    ensures GroupLength(b, no, prot) == GroupLength(Without1(b, i), no, prot) + Share(b[i], no, prot)
  {
    hide GroupLength;
    assert b == b[..i] + ([b[i]] + b[i + 1..]);
    GroupConcat(b[..i], [b[i]] + b[i + 1..], no, prot);
    GroupConcat([b[i]], b[i + 1..], no, prot);
    GroupConcat(b[..i], b[i + 1..], no, prot);
    GroupOne(b[i], no, prot);
  }

  lemma {:induction false} WithoutMembers(b: seq<Policy>, i: nat)
    requires i < |b| && UniqueKeys(b)
    ensures UniqueKeys(Without1(b, i)) && forall e :: e in Without1(b, i) <==> e in b && e != b[i]
  {
    var w := Without1(b, i);
    assert forall j :: 0 <= j < |w| ==> w[j] == b[if j < i then j else j + 1];
    forall e | e in b && e != b[i]
      ensures e in w
    {
      var j :| 0 <= j < |b| && b[j] == e;
      assert w[if j < i then j else j - 1] == e;
    }
    forall e | e in w
      ensures e in b && e != b[i]
    {
      var j :| 0 <= j < |w| && w[j] == e;
      var l := if j < i then j else j + 1;
      assert b[l] == e && !SameKey(b[if l < i then l else i], b[if l < i then i else l]);
    }
  }

  lemma {:induction false} FirstIn(b: seq<Policy>)
    ensures b == [] || b[0] in b
  {
  }

  /** The order of the entries does not matter. */
  lemma {:induction false} SameGroupLength(a: seq<Policy>, b: seq<Policy>, no: byte, prot: byte)
    requires UniqueKeys(a) && UniqueKeys(b) && forall e :: e in a <==> e in b
    ensures GroupLength(a, no, prot) == GroupLength(b, no, prot)
    decreases |a|
  {
    hide UniqueKeys, GroupLength;
    if |a| == 0 {
      FirstIn(b);
      assert a == b;
    } else {
      var n := |a| - 1;
      assert a[n] in a;
      var i :| 0 <= i < |b| && b[i] == a[n];
      WithoutMembers(a, n);
      WithoutMembers(b, i);
      SameGroupLength(Without1(a, n), Without1(b, i), no, prot);
      GroupWithout(a, n, no, prot);
      GroupWithout(b, i, no, prot);
    }
  }

  lemma {:induction false} ArrivedFits(policy: seq<Policy>, received: seq<Policy>)
    requires PolicyFits(policy) && UniqueKeys(received) && SamePolicy(received, policy)
    ensures PolicyFits(received)
  {
    hide GroupLength;
    forall e
      ensures e in received <==> e in policy
    {
      FindMember(received, e);
      FindMember(policy, e);
      assert Find(received, e.policyNo, e.protType, e.policyType) == Find(policy, e.policyNo, e.protType, e.policyType);
    }
    forall i | 0 <= i < |received|
      ensures |received[i].value| < 256
    {
      assert received[i] in received;
      var j :| 0 <= j < |policy| && policy[j] == received[i];
    }
    forall no: byte, prot: byte
      ensures GroupLength(received, no, prot) + 5 < TWO16
    {
      SameGroupLength(received, policy, no, prot);
      assert GroupLength(policy, no, prot) + 5 < TWO16;
    }
  }

  // ---- what the initiator sends is accepted ----

  lemma {:induction false} NoKemacBefore(body: seq<Payload>, h: Payload, t: nat, policy: seq<Policy>, rand: seq<byte>, k: Payload)
    requires |body| > 0 && h.Hdr? && InitShape(Prefix(body, KEMAC_TYPE) + [k], h, t, policy, rand, k)
    ensures forall x :: x in Prefix(body, KEMAC_TYPE) ==> TypeOf(x) != KEMAC_TYPE
  {
    hide SameButNext, Alike, AddPolicy, HeadList;
    var a := Prefix(body, KEMAC_TYPE);
    var f := a + [k];
    NextFields(f[0], h);
    NextFields(f[1], Time(0, TS_NTP_UTC, t));
    NextFields(f[|f| - 2], Rand(0, rand));
    forall i | 0 <= i < |a|
      ensures TypeOf(a[i]) != KEMAC_TYPE
    {
      assert a[i] == f[i];
    }
  }

  lemma {:induction false} KeyDecoded(k: Payload, tgk: seq<byte>, encrKey: Key, iv: Key)
    requires k.Kemac? && k.encrData == Encrypted(k.encrAlg, encrKey, iv, KeyDataBytes(tgk)) && |tgk| < TWO16
    ensures DecodedKey(k, encrKey, iv) == Ok(tgk)
  {
    hide Encrypted, Encode, ParseList;
    var p := KeyData(LAST_PAYLOAD, TGK, tgk);
    DecryptUndoes(k.encrAlg, encrKey, iv, KeyDataBytes(tgk));
    EncodeOne(p);
    KeyDataOk(p);
    MessageRoundTrip([p]);
  }

  lemma {:induction false} KeyDataOk(p: Payload)
    requires p.KeyData? && p.next == LAST_PAYLOAD && p.keyType == TGK && |p.keyData| < TWO16
    ensures AllOk([p]) && Linked([p]) && TypeOf(p) == KEYDATA_TYPE
  {
  }

  /** Without a MAC the authentication key plays no part. */
  lemma {:induction false} NullMac(hmac: Hmac, macAlg: byte, authKey: seq<byte>, ps: seq<Payload>, raw: seq<byte>)
    requires |ps| > 0 && ps[|ps| - 1].Kemac? && ps[|ps| - 1].macAlg == macAlg
    requires KemacAccepted(hmac, if macAlg == MAC_HMAC_SHA1 then authKey else [], ps, raw)
    requires Extract(ps, KEMAC_TYPE) == Some(ps[|ps| - 1])
    ensures KemacAccepted(hmac, authKey, ps, raw)
  {
  }

  /** The offer as bytes: it parses to the same payloads, its MAC is accepted under the same authentication key, the
      key data decrypt to the initiator's TGK, and the policies arrive. */
  lemma {:induction false} OfferAccepted(f: seq<Payload>, h: Payload, t: nat, policy: seq<Policy>, rand: seq<byte>, hmac: Hmac, tgk: seq<byte>,
                                         encrKey: Key, iv: Key, authKey: seq<byte>, encrAlg: byte, macAlg: byte)
    requires macAlg <= MAC_HMAC_SHA1
    requires h.Hdr? && h.next == LAST_PAYLOAD && h.dataType == PSK_INIT && WellFormed(h) && t < TWO64 && |rand| < 256
    requires PolicyFits(policy) && |tgk| < TWO16
    requires AllOk(f) && Linked(f)
    requires var body := InitBody(h, t, policy, rand);
      |f| == |body| + 1 && f == Prefix(body, KEMAC_TYPE) + [f[|body|]] &&
      IsKemacOf(f[|body|], body, hmac, KeyDataBytes(tgk), encrKey, iv, if macAlg == MAC_HMAC_SHA1 then authKey else [], encrAlg, macAlg)
    ensures var k := f[|f| - 1];
      InitShape(f, h, t, policy, rand, k) && k.Kemac? && k.encrAlg == encrAlg && k.macAlg == macAlg &&
      ParseList(HDR_TYPE, EncodeAll(f)) == Ok(f) && KemacAccepted(hmac, authKey, f, EncodeAll(f)) &&
      DecodedKey(k, encrKey, iv) == Ok(tgk)
    ensures UniqueKeys(Received(f[2..], [])) && SamePolicy(Received(f[2..], []), policy) && PolicyFits(Received(f[2..], []))
  {
    hide PolicyFits, AllOk, Linked, EncodeAll, ParseList, KemacAccepted, Received, SamePolicy, UniqueKeys, InitBody, DecodedKey, Encrypted;
    hide AddPolicy, HeadList, InitShape, WellFormed, KeysOf, DropSps, HeadOf, KnownRand, Extract;
    var body := InitBody(h, t, policy, rand);
    var k := f[|body|];
    HeadOk(h, t);
    OpenOk(HeadList(h, t));
    InitListShape(h, t, policy, rand, k);
    HdrFits(h);
    InitLookups(f, h, t, policy, rand, k);
    HdrIsFirst(f, h);
    MessageRoundTrip(f);
    NoKemacBefore(body, h, t, policy, rand, k);
    var used := if macAlg == MAC_HMAC_SHA1 then authKey else [];
    KemacVerifies(body, k, hmac, KeyDataBytes(tgk), encrKey, iv, used, encrAlg, macAlg);
    ExtractFirst(Prefix(body, KEMAC_TYPE), k, KEMAC_TYPE);
    NullMac(hmac, macAlg, authKey, f, EncodeAll(f));
    KeyDecoded(k, tgk, encrKey, iv);
    PolicyArrives(HeadList(h, t), policy);
    ArrivedFits(policy, Received(f[2..], []));
  }

  lemma {:induction false} HdrIsFirst(f: seq<Payload>, h: Payload)
    requires |f| > 0 && SameHdr(f[0], h)
    ensures TypeOf(f[0]) == HDR_TYPE
  {
  }

  /** The response as bytes: it parses to the same payloads and its MAC is accepted under the same authentication
      key by whoever remembers the time stamp it covers. */
  lemma {:induction false} ResponseAccepted(g: seq<Payload>, h: Payload, now: nat, hmac: Hmac, authKey: seq<byte>, macAlg: byte, t: nat)
    requires h.Hdr? && h.next == LAST_PAYLOAD && h.dataType == PSK_RESP && WellFormed(h)
    requires AllOk(g) && Linked(g) && |g| == 3 && g == Prefix(HeadList(h, now), V_TYPE) + [g[2]]
    requires IsVerOf(g[2], HeadList(h, now), hmac, authKey, macAlg, t)
    ensures ParseList(HDR_TYPE, EncodeAll(g)) == Ok(g) && VerAccepted(hmac, authKey, g, EncodeAll(g), t)
    ensures SameHdr(g[0], h) && ResponseOf(g) == Ok(OfferHead(g[0], g[1], g[1..])) && forall p :: Received(g[1..], p) == p
  {
    hide AllOk, Linked, EncodeAll, ParseList, VerAccepted, WellFormed, Be, ResponseOf, HeadOf;
    HeadAlike(h, now);
    assert g[0] == HeadList(h, now)[0];
    assert g[1].Time? && g[1].tsType == TS_NTP_UTC;
    NextFields(g[0], h);
    HdrFits(h);
    HdrIsFirst(g, h);
    MessageRoundTrip(g);
    HeadLookups(g);
    EncodeAllLength(g);
    LengthOfThree(g);
    NoVBefore(g);
    VerVerifies(HeadList(h, now), g[2], hmac, authKey, macAlg, t);
    forall p
      ensures Received(g[1..], p) == p
    {
      ReceivedSkips(g[1..], [], p);
      assert g[1..] + [] == g[1..];
    }
  }

  lemma {:induction false} NoVBefore(g: seq<Payload>)
    requires |g| == 3 && g[0].Hdr? && g[1].Time?
    ensures forall x :: x in g[..2] ==> TypeOf(x) != V_TYPE
  {
  }

  lemma {:induction false} LengthOfThree(g: seq<Payload>)
    requires |g| == 3 && g[0].Hdr? && g[1].Time? && g[1].tsType == TS_NTP_UTC && g[2].Ver?
    ensures TotalLength(g) >= MAC_SIZE
  {
    assert g[..3] == g && g[..0] == [];
    EncodeAllStep(g, 0);
    EncodeAllStep(g, 1);
    EncodeAllStep(g, 2);
  }

  // ---- the run ----

  /** Both parties agree on everything that keys are derived from. */
  ghost predicate Agreed(a: KeyAgreement, b: KeyAgreement)
    reads a, b
  {
    a.hmac == b.hmac && a.tgk == b.tgk && a.rand == b.rand && a.csbId == b.csbId && a.csIdMap == b.csIdMap && a.csIdMapType == b.csIdMapType &&
    SamePolicy(a.policy, b.policy)
  }

  lemma {:induction false} SameKeys(a: KeyAgreement, b: KeyAgreement, kind: KeyType, csId: byte, n: nat)
    requires Agreed(a, b) && |a.tgk| >= 1
    ensures a.Key(kind, csId, n) == b.Key(kind, csId, n)
  {
  }

  /** A message on its way: one party sends b64Message(), the other parses the text. */
  method Transmit(m: MikeyPayloads) returns (received: MikeyPayloads, error: Option<Error>)
    requires m.Local() && |m.payloads| > 0
    modifies m`rawData
    ensures m.Local() && fresh(received)
    ensures var r := ParseList(HDR_TYPE, EncodeAll(m.payloads));
      if r.Err? then error == Some(r.error)
      else error == None && received.Valid() && received.payloads == r.value && received.Raw() == EncodeAll(m.payloads)
  {
    hide ParseList;
    var raw := m.RawMessageData();
    NotEmpty(m.payloads);
    hide EncodeAll;
    var text := Base64.Base64Encode(raw[..]);
    Base64.Base64RoundTrip(raw[..]);
    var decoded := Base64.Base64Decode(text);
    var bytes := decoded.bytes;
    var copy := new byte[|bytes|](i requires 0 <= i < |bytes| => bytes[i]);
    assert copy[..] == bytes;
    received := new MikeyPayloads();
    error := received.Parse(HDR_TYPE, copy);
  }

  lemma {:induction false} NotEmpty(ps: seq<Payload>)
    requires |ps| > 0 && AllOk(ps)
    ensures |EncodeAll(ps)| >= 1
  {
    EncodeLength(ps[|ps| - 1]);
  }

  /** The transport keys depend on the pre-shared key, the bundle id and the random value only. */
  lemma {:induction false} SameTransport(a: KeyAgreementPSK, b: KeyAgreementPSK, kind: KeyType, n: nat, t: nat)
    requires a.psk == b.psk && |a.psk| >= 1 && a.ka.hmac == b.ka.hmac && a.ka.csbId == b.ka.csbId && a.ka.rand == b.ka.rand
    ensures a.Transport(kind, n) == b.Transport(kind, n) && a.Iv(t) == b.Iv(t)
  {
  }

  /** What the responder knows when it has taken over the offer. */
  ghost predicate OfferTaken(a: KeyAgreementPSK, b: KeyAgreementPSK, macAlg: byte, t: nat)
    requires |a.psk| >= 1
    reads a, b, a.ka, b.ka
  {
    b.psk == a.psk && b.ka.hmac == a.ka.hmac && b.ka.tgk == a.ka.tgk && b.ka.rand == a.ka.rand && b.ka.csbId == a.ka.csbId &&
    b.ka.csIdMap == a.ka.csIdMap && b.ka.csIdMapType == a.ka.csIdMapType && b.ka.nCs == a.ka.nCs &&
    SamePolicy(b.ka.policy, a.ka.policy) && PolicyFits(b.ka.policy) &&
    b.v && b.macAlg == macAlg && b.tReceived == t == a.tSent &&
    b.authKey == if macAlg == MAC_HMAC_SHA1 then a.Transport(TransAuth, 20) else []
  }

  /** All there is to know about the list of the initiator's message. */
  ghost predicate OfferFacts(f: seq<Payload>, a: KeyAgreementPSK, t: nat, encrAlg: byte, macAlg: byte)
    requires |a.psk| >= 1 && a.ka.csIdMap.Some? && a.ka.rand.Some?
    reads a, a.ka
  {
    |f| >= 4 && AllOk(f) && ParseList(HDR_TYPE, EncodeAll(f)) == Ok(f) &&
    SameHdr(f[0], HdrOf(a.ka)) && f[1].Time? && f[1].ts == t && HeadOf(f) == Ok(OfferHead(f[0], f[1], f[2..])) &&
    KnownRand(None, f) == a.ka.rand && TypeOf(f[|f| - 1]) == KEMAC_TYPE &&
    f[|f| - 1].Kemac? && f[|f| - 1].encrAlg == encrAlg && f[|f| - 1].macAlg == macAlg &&
    KeysOf(DropSps(f[2..])) == Ok(OfferKeys(a.ka.rand.value, f[|f| - 1])) &&
    KemacAccepted(a.ka.hmac, a.Transport(TransAuth, 20), f, EncodeAll(f)) &&
    DecodedKey(f[|f| - 1], a.Transport(TransEncr, 16), a.Iv(t)) == Ok(a.ka.tgk) &&
    SamePolicy(Received(f[2..], []), a.ka.policy) && PolicyFits(Received(f[2..], []))
  }

  method MakeOffer(a: KeyAgreementPSK, encrAlg: byte, macAlg: byte, freshCsbId: nat, t1: nat, random: seq<byte>) returns (m: MikeyPayloads)
    requires Ready(a) && a.ka.csIdMap.Some?
    requires encrAlg <= ENCR_AES_CM && macAlg <= MAC_HMAC_SHA1 && freshCsbId < TWO32 && t1 < TWO64 && |random| == RAND_SIZE
    modifies a`tSent, a`macAlg, a`authKey, a.ka`csbId, a.ka`rand
    ensures fresh(m) && m.Local() && |m.payloads| > 0 && a.tSent == t1 && a.Valid()
    ensures a.ka.rand == Some(random) && a.ka.csbId < TWO32 && OfferFacts(m.payloads, a, t1, encrAlg, macAlg)
  {
    hide AllOk, Linked, EncodeAll, ParseList, PolicyFits, KemacAccepted, VerAccepted, Received, HeadOf, KeysOf, DropSps, TotalLength;
    hide InitBody, InitShape, AddPolicy, HeadList, DecodedKey, IsKemacOf, TransportKey, TransportIv, UniqueKeys, WellFormed, MapOk;
    hide SamePolicy, TypeOf, KnownRand, Prefix;
    var created;
    m, created := CreateInit(a, encrAlg, macAlg, freshCsbId, t1, random);
    ghost var h, f := HdrOf(a.ka), m.payloads;
    ghost var k := f[|f| - 1];
    HdrOk(a.ka.csbId, a.ka.nCs, a.ka.csIdMapType, a.ka.csIdMap.value);
    OfferAccepted(f, h, t1, a.ka.policy, random, a.ka.hmac, a.ka.tgk, a.Transport(TransEncr, 16), a.Iv(t1), a.Transport(TransAuth, 20),
                  encrAlg, macAlg);
    MapTypes(a.ka.csIdMapType, a.ka.csIdMap.value);
    InitLookups(f, h, t1, a.ka.policy, random, k);
    OpenAllOk(m);
  }

  lemma {:induction false} OpenAllOk(m: MikeyPayloads)
    requires m.Valid()
    ensures AllOk(m.payloads)
  {
  }

  /** The responder authenticates the message and takes over its contents. */
  method TakeOffer(a: KeyAgreementPSK, b: KeyAgreementPSK, encrAlg: byte, macAlg: byte, t1: nat, m: MikeyPayloads) returns (ok: bool)
    requires a != b && a.ka != b.ka && a.psk == b.psk && |a.psk| >= 1 && a.ka.hmac == b.ka.hmac
    requires a.ka.csIdMap.Some? && a.ka.rand.Some? && encrAlg <= ENCR_AES_CM && macAlg <= MAC_HMAC_SHA1 && a.tSent == t1
    requires OfferFacts(m.payloads, a, t1, encrAlg, macAlg) && m.Valid() && m.Raw() == EncodeAll(m.payloads)
    requires b.Valid() && b.ka.rand == None && b.ka.policy == []
    modifies m`rawData, m`payloads, b, b.ka
    ensures ok && m.Valid() && OfferTaken(a, b, macAlg, t1)
  {
    hide AllOk, Linked, EncodeAll, ParseList, PolicyFits, KemacAccepted, VerAccepted, Received, HeadOf, KeysOf, DropSps, TotalLength;
    hide DecodedKey, TransportKey, TransportIv, UniqueKeys, WellFormed, MapOk, SamePolicy, TypeOf, KnownRand;
    EncodeAllLength(m.payloads);
    var failed := Authenticate(m, b);
    SameTransport(a, b, TransAuth, 20, t1);
    var error := SetOffer(m, b);
    SameTransport(a, b, TransEncr, 16, t1);
    SameTransport(a, b, TransAuth, 20, t1);
    ok := failed == Ok(false) && error == None;
  }

  lemma {:induction false} VerNull(hmac: Hmac, macAlg: byte, authKey: seq<byte>, ps: seq<Payload>, raw: seq<byte>, t: nat)
    requires |ps| > 0 && ps[|ps| - 1].Ver? && ps[|ps| - 1].macAlg == macAlg
    requires VerAccepted(hmac, if macAlg == MAC_HMAC_SHA1 then authKey else [], ps, raw, t)
    requires Extract(ps, V_TYPE) == Some(ps[|ps| - 1])
    ensures VerAccepted(hmac, authKey, ps, raw, t)
  {
    hide Be;
  }

  /** The responder answers, and the initiator authenticates the answer and takes over the CS ID map. */
  method Answer(a: KeyAgreementPSK, b: KeyAgreementPSK, macAlg: byte, t1: nat, t2: nat, m: MikeyPayloads) returns (ok: bool)
    requires a != b && a.ka != b.ka && |a.psk| >= 1 && a.psk == b.psk && a.ka.hmac == b.ka.hmac && a.Valid() && macAlg <= MAC_HMAC_SHA1 && t2 < TWO64
    requires a.ka.rand.Some? && a.ka.rand == b.ka.rand && a.ka.csbId == b.ka.csbId && a.tSent == b.tReceived == t1
    requires b.v && b.macAlg == macAlg && b.authKey == if macAlg == MAC_HMAC_SHA1 then a.Transport(TransAuth, 20) else []
    requires m.Valid() && PolicyFits(b.ka.policy)
    requires b.ka.csIdMap.Some? && b.ka.csbId < TWO32 && b.ka.nCs == |b.ka.csIdMap.value| && MapOk(b.ka.csIdMapType, b.ka.csIdMap.value)
    modifies m, b`authKey, a.ka`rand, a.ka`csbId, a.ka`csIdMap, a.ka`policy
    ensures ok && a.ka.csIdMap == b.ka.csIdMap
    ensures a.ka.rand == old(a.ka.rand) && a.ka.csbId == old(a.ka.csbId) && a.ka.policy == old(a.ka.policy)
  {
    hide AllOk, Linked, EncodeAll, ParseList, PolicyFits, VerAccepted, KemacAccepted, Received, ResponseOf, TotalLength, HeadList, IsVerOf, Prefix;
    hide TransportKey, TransportIv, UniqueKeys, WellFormed, MapOk, TypeOf;
    ghost var h := RespHdr(b.ka.csbId, b.ka.nCs, b.ka.csIdMapType, b.ka.csIdMap.value);
    HdrOk(b.ka.csbId, b.ka.nCs, b.ka.csIdMapType, b.ka.csIdMap.value);
    ghost var authKey := b.authKey;
    var result, error := BuildResponse(m, b, t2);
    ghost var g := result.payloads;
    OpenAllOk(result);
    ResponseFacts(g, h, t2, a.ka.hmac, authKey, a.Transport(TransAuth, 20), macAlg, t1);
    var m4;
    m4, error := Transmit(result);
    EncodeAllLength(g);
    var failed := Authenticate(m4, a);
    error := ParseResponse(m4, a);
    ok := failed == Ok(false) && error == None;
  }

  lemma {:induction false} ResponseFacts(g: seq<Payload>, h: Payload, now: nat, hmac: Hmac, authKey: seq<byte>, transAuth: seq<byte>, macAlg: byte, t: nat)
    requires h.Hdr? && h.next == LAST_PAYLOAD && h.dataType == PSK_RESP && WellFormed(h) && macAlg <= MAC_HMAC_SHA1
    requires AllOk(g) && Linked(g) && |g| == 3 && g == Prefix(HeadList(h, now), V_TYPE) + [g[2]]
    requires IsVerOf(g[2], HeadList(h, now), hmac, authKey, macAlg, t) && authKey == if macAlg == MAC_HMAC_SHA1 then transAuth else []
    ensures ParseList(HDR_TYPE, EncodeAll(g)) == Ok(g) && VerAccepted(hmac, transAuth, g, EncodeAll(g), t)
    ensures SameHdr(g[0], h) && ResponseOf(g) == Ok(OfferHead(g[0], g[1], g[1..])) && forall p :: Received(g[1..], p) == p
  {
    hide AllOk, Linked, EncodeAll, ParseList, VerAccepted, WellFormed, ResponseOf, Received, HeadList, SameHdr, Extract;
    ResponseAccepted(g, h, now, hmac, authKey, macAlg, t);
    OnlyV(g, h, now);
    VerNull(hmac, macAlg, transAuth, g, EncodeAll(g), t);
  }

  lemma {:induction false} OnlyV(g: seq<Payload>, h: Payload, now: nat)
    requires h.Hdr? && |g| == 3 && g == Prefix(HeadList(h, now), V_TYPE) + [g[2]] && g[2].Ver?
    ensures Extract(g, V_TYPE) == Some(g[2])
  {
    HeadAlike(h, now);
    assert g[0] == HeadList(h, now)[0] && g[1].Time?;
    NextFields(g[0], h);
    assert g[1..][1..] == [g[2]] && g[1..][0] == g[1];
    ExtractLater(g, V_TYPE);
    ExtractLater(g[1..], V_TYPE);
  }

  /** The first message, from one party to the other. */
  method OfferPhase(a: KeyAgreementPSK, b: KeyAgreementPSK, encrAlg: byte, macAlg: byte, freshCsbId: nat, t1: nat, random: seq<byte>)
      returns (ok: bool, m: MikeyPayloads)
    requires a != b && a.ka != b.ka && a.psk == b.psk && a.ka.hmac == b.ka.hmac
    requires Ready(a) && a.ka.csIdMap.Some? && b.Valid() && b.ka.rand == None && b.ka.policy == []
    requires encrAlg <= ENCR_AES_CM && macAlg <= MAC_HMAC_SHA1 && freshCsbId < TWO32 && t1 < TWO64 && |random| == RAND_SIZE
    modifies a, b, a.ka`csbId, a.ka`rand, b.ka
    ensures ok && fresh(m) && m.Valid() && a.Valid() && a.psk == old(a.psk) && a.ka.rand == Some(random)
    ensures OfferTaken(a, b, macAlg, t1)
  {
    hide AllOk, PolicyFits, TransportKey, UniqueKeys, SamePolicy, OfferFacts, MapOk, EncodeAll, ParseList, OfferTaken, Linked;
    var m1 := MakeOffer(a, encrAlg, macAlg, freshCsbId, t1, random);
    OfferParses(m1.payloads, a, t1, encrAlg, macAlg);
    var error;
    m, error := Transmit(m1);
    ok := TakeOffer(a, b, encrAlg, macAlg, t1, m);
    ok := ok && error == None;
  }

  /** A whole run: the initiator's message, the responder's checks and answer, and the initiator's checks. The
      initiator has its streams and policies; the responder starts from a fresh key agreement with the same
      pre-shared key. Both messages are accepted, and both parties end with the same TGK, random value, bundle id,
      CS ID map and policies. */
  method HonestRun(a: KeyAgreementPSK, b: KeyAgreementPSK, encrAlg: byte, macAlg: byte, freshCsbId: nat, t1: nat, t2: nat, random: seq<byte>,
                   receivers: seq<nat>) returns (ok: bool)
    requires a != b && a.ka != b.ka && a.psk == b.psk && a.ka.hmac == b.ka.hmac
    requires Ready(a) && a.ka.csIdMap.Some? && a.ka.csIdMapType == MAP_SRTP
    requires b.Valid() && b.ka.rand == None && b.ka.policy == []
    requires encrAlg <= ENCR_AES_CM && macAlg <= MAC_HMAC_SHA1 && freshCsbId < TWO32 && t1 < TWO64 && t2 < TWO64 && |random| == RAND_SIZE
    requires SsrcsOk(receivers)
    modifies a, b, a.ka, b.ka
    ensures ok && Agreed(a.ka, b.ka)
    ensures a.ka.tgk == old(a.ka.tgk) && a.ka.policy == old(a.ka.policy) && a.ka.rand == Some(random)
    ensures a.ka.csIdMap == Some(ResponderMap(old(a.ka.csIdMap).value, receivers))
  {
    hide AllOk, PolicyFits, TransportKey, UniqueKeys, MapOk, EncodeAll, SsrcsOk, ResponderMap;
    var taken, m := OfferPhase(a, b, encrAlg, macAlg, freshCsbId, t1, random);
    AddStreamsAsResponder(b.ka, receivers);
    ok := Answer(a, b, macAlg, t1, t2, m);
    SameSymmetricPolicy(a.ka.policy, b.ka.policy);
    ok := ok && taken;
  }

  lemma {:induction false} SameSymmetricPolicy(a: seq<Policy>, b: seq<Policy>)
    ensures SamePolicy(b, a) ==> SamePolicy(a, b)
  {
  }

  lemma {:induction false} OfferParses(f: seq<Payload>, a: KeyAgreementPSK, t: nat, encrAlg: byte, macAlg: byte)
    requires |a.psk| >= 1 && a.ka.csIdMap.Some? && a.ka.rand.Some? && OfferFacts(f, a, t, encrAlg, macAlg)
    ensures ParseList(HDR_TYPE, EncodeAll(f)) == Ok(f)
  {
  }

  /** After the run both parties derive the same keys for every crypto session. */
  method HonestRunKeys(a: KeyAgreementPSK, b: KeyAgreementPSK, encrAlg: byte, macAlg: byte, freshCsbId: nat, t1: nat, t2: nat, random: seq<byte>,
                       receivers: seq<nat>, csId: byte, n: nat) returns (tekA: seq<byte>, tekB: seq<byte>, saltA: seq<byte>, saltB: seq<byte>)
    requires a != b && a.ka != b.ka && a.psk == b.psk && a.ka.hmac == b.ka.hmac
    requires Ready(a) && a.ka.csIdMap.Some? && a.ka.csIdMapType == MAP_SRTP
    requires b.Valid() && b.ka.rand == None && b.ka.policy == []
    requires encrAlg <= ENCR_AES_CM && macAlg <= MAC_HMAC_SHA1 && freshCsbId < TWO32 && t1 < TWO64 && t2 < TWO64 && |random| == RAND_SIZE
    requires SsrcsOk(receivers) && n >= 1
    modifies a, b, a.ka, b.ka
    ensures tekA == tekB && saltA == saltB && |tekA| == n
  {
    var ok := HonestRun(a, b, encrAlg, macAlg, freshCsbId, t1, t2, random, receivers);
    SameKeys(a.ka, b.ka, Tek, csId, n);
    SameKeys(a.ka, b.ka, Salt, csId, n);
    tekA := a.ka.Gen(Tek, csId, n);
    tekB := b.ka.Gen(Tek, csId, n);
    saltA := a.ka.Gen(Salt, csId, n);
    saltB := b.ka.Gen(Salt, csId, n);
  }

  // ---- from the senders on ----

  lemma {:induction false} DefaultShare(k: byte, n: nat, no: byte, prot: byte)
    requires n <= 13
    ensures GroupLength(DefaultPolicy(k, PROTO_SRTP)[..n], no, prot) <= if no == k then 3 * n else 0
  {
    var p := DefaultPolicy(k, PROTO_SRTP);
    if n > 0 {
      DefaultShare(k, n - 1, no, prot);
      assert p[..n][..n - 1] == p[..n - 1];
      assert p[..n][n - 1] == Policy(k, PROTO_SRTP, n - 1, [SRTP_VALUES[n - 1]]);
    }
  }

  lemma {:induction false} DefaultsShare(n: nat, no: byte, prot: byte)
    requires n <= MAX_SENDERS
    ensures GroupLength(DefaultPolicies(n), no, prot) <= if no < n then 39 else 0
  {
    hide GroupLength, DefaultPolicy;
    if n > 0 {
      DefaultsShare(n - 1, no, prot);
      GroupConcat(DefaultPolicies(n - 1), DefaultPolicy(n - 1, PROTO_SRTP), no, prot);
      DefaultShare(n - 1, 13, no, prot);
      DefaultSize(n - 1);
    } else {
      NoShare(no, prot);
    }
  }

  lemma {:induction false} NoShare(no: byte, prot: byte)
    ensures GroupLength([], no, prot) == 0
  {
  }

  lemma {:induction false} DefaultSize(k: byte)
    ensures DefaultPolicy(k, PROTO_SRTP)[..13] == DefaultPolicy(k, PROTO_SRTP)
    ensures forall p :: p in DefaultPolicy(k, PROTO_SRTP) ==> |p.value| == 1
  {
  }

  /** The default policies of any number of streams fit the message. */
  lemma {:induction false} DefaultsFit(n: nat)
    requires n <= MAX_SENDERS
    ensures PolicyFits(DefaultPolicies(n))
  {
    hide GroupLength;
    PoliciesUnique(n);
    forall no: byte, prot: byte
      ensures GroupLength(DefaultPolicies(n), no, prot) + 5 < TWO16
    {
      DefaultsShare(n, no, prot);
    }
    ShortValues(n);
  }

  lemma {:induction false} ShortValues(n: nat)
    requires n <= MAX_SENDERS
    ensures forall i :: 0 <= i < |DefaultPolicies(n)| ==> |DefaultPolicies(n)[i].value| == 1
  {
    if n > 0 {
      ShortValues(n - 1);
      DefaultSize(n - 1);
      var d := DefaultPolicy(n - 1, PROTO_SRTP);
      assert forall i :: 0 <= i < |d| ==> d[i] in d;
    }
  }

  /** Two parties with a common pre-shared key and streams to send, each with random values of its own: the whole
      exchange succeeds, and the map they share has an entry for every stream of the initiator, followed by the
      responder's. */
  method FullRun(hmac: Hmac, secret: seq<byte>, senders: seq<nat>, receivers: seq<nat>, tgk: seq<byte>, otherTgk: seq<byte>, random: seq<byte>,
                 csbId: nat, t1: nat, t2: nat, encrAlg: byte, macAlg: byte) returns (a: KeyAgreementPSK, b: KeyAgreementPSK, ok: bool)
    requires |secret| >= 1 && SsrcsOk(senders) && SsrcsOk(receivers) && 1 <= |senders| && |receivers| <= |senders|
    requires 1 <= |tgk| < TWO16 - 4 && csbId < TWO32 && t1 < TWO64 && t2 < TWO64 && |random| == RAND_SIZE
    requires encrAlg <= ENCR_AES_CM && macAlg <= MAC_HMAC_SHA1
    ensures ok && Agreed(a.ka, b.ka) && a.ka.tgk == tgk
    ensures a.ka.csIdMap.Some? && |a.ka.csIdMap.value| == 2 * |senders|
    ensures forall j :: 1 <= j <= |senders| ==>
      IsStream(a.ka.csIdMap.value[2 * j - 2], j - 1, senders[j - 1]) &&
      IsStream(a.ka.csIdMap.value[2 * j - 1], j - 1, if j <= |receivers| then receivers[j - 1] else 0)
  {
    hide PolicyFits, MapOk, InitiatorMap, ResponderMap, DefaultPolicies;
    var ka := new KeyAgreement(hmac);
    a := new KeyAgreementPSK(ka, secret);
    a.ka.tgk := tgk;
    AddStreamsAsInitiator(a.ka, senders);
    DefaultsFit(|senders|);
    PoliciesUnique(|senders|);
    var kb := new KeyAgreement(hmac);
    b := new KeyAgreementPSK(kb, secret);
    b.ka.tgk := otherTgk;
    NoKeys();
    ok := HonestRun(a, b, encrAlg, macAlg, csbId, t1, t2, random, receivers);
    forall j | 1 <= j <= |senders|
      ensures IsStream(a.ka.csIdMap.value[2 * j - 2], j - 1, senders[j - 1]) &&
        IsStream(a.ka.csIdMap.value[2 * j - 1], j - 1, if j <= |receivers| then receivers[j - 1] else 0)
    {
      SharedMap(senders, receivers, j);
    }
  }
}
