/** The Diffie-Hellman exchange: MikeyMessageDH.cxx. */
module MikeyDh {
  import opened Wrappers
  import opened Bytes
  import opened MikeyPayload
  import opened MikeyList
  import opened MikeyMessage
  import opened KeyAgreement
  import opened KeyAgreementDh
  import opened MikeyAuth
  import opened MikeyPolicy
  import opened MikeyPsk

  const X509V3SIGN: byte := 2

  function DhHdr(dataType: byte, v: bool, csbId: nat, nCs: byte, mapType: byte, m: seq<Cs>): Payload {
    Hdr(LAST_PAYLOAD, 1, dataType, v, 0, csbId, nCs, mapType, m)
  }

  // ---- adding several payloads ----

  function AddAll(ps: seq<Payload>, items: seq<Payload>): (r: seq<Payload>)
    ensures |r| == |ps| + |items|
  {
    if |items| == 0 then ps else MikeyList.AddPayload(AddAll(ps, items[..|items| - 1]), items[|items| - 1])
  }

  /** Payloads that may be added to a message that has a header. */
  ghost predicate Addable(items: seq<Payload>) {
    forall i :: 0 <= i < |items| ==> WellFormed(items[i]) && items[i].next == LAST_PAYLOAD && TypeOf(items[i]) != HDR_TYPE && !items[i].Sign?
  }

  lemma {:induction false} AddAllOk(ps: seq<Payload>, items: seq<Payload>)
    requires |ps| > 0 && Open(ps) && Addable(items)
    ensures Open(AddAll(ps, items)) && TypeOf(AddAll(ps, items)[0]) == TypeOf(ps[0])
    ensures Alike(AddAll(ps, items), ps + items)
  {
    hide WellFormed, TypeOf, Linked, AllOk, SameButNext;
    if |items| > 0 {
      var n := |items| - 1;
      var h, x := AddAll(ps, items[..n]), items[n];
      AddAllOk(ps, items[..n]);
      AddPayloadOk(h, x);
      assert MikeyList.AddPayload(h, x) == Prefix(h, TypeOf(x)) + [x];
      AlikeNext(h, TypeOf(x));
      AlikeSymmetric(h, Prefix(h, TypeOf(x)));
      AlikeTrans(Prefix(h, TypeOf(x)), h, ps + items[..n]);
      SameSelf(x);
      SplitLast(ps, items);
      AlikeSnoc(Prefix(h, TypeOf(x)), ps + items[..n], x);
    } else {
      AlikeSelf(ps);
      assert ps + items == ps;
    }
  }

  lemma {:induction false} AlikeSelf(a: seq<Payload>)
    ensures Alike(a, a)
  {
  }

  lemma {:induction false} AlikeSymmetric(a: seq<Payload>, b: seq<Payload>)
    requires Alike(a, b)
    ensures Alike(b, a)
  {
    forall i | 0 <= i < |a|
      ensures SameButNext(b[i], a[i])
    {
      assert SameButNext(a[i], b[i]);
    }
  }

  lemma {:induction false} AlikeSnoc(a: seq<Payload>, b: seq<Payload>, x: Payload)
    requires Alike(a, b)
    ensures Alike(a + [x], b + [x])
  {
    hide SameButNext;
    SameSelf(x);
    forall i | 0 <= i < |a| + 1
      ensures SameButNext((a + [x])[i], (b + [x])[i])
    {
    }
  }

  method AddItems(m: MikeyPayloads, items: seq<Payload>)
    requires m.Valid() && |m.payloads| > 0 && Open(m.payloads) && Addable(items)
    modifies m`payloads, m`compiled
    ensures m.Valid() && m.payloads == AddAll(old(m.payloads), items) && Open(m.payloads)
    ensures items == [] || !m.compiled
    ensures m.compiled ==> old(m.compiled)
  {
    hide WellFormed, TypeOf, Linked, AllOk, SameButNext;
    ghost var before := m.payloads;
    assert items[..0] == [];
    for i := 0 to |items|
      invariant m.Valid() && m.payloads == AddAll(before, items[..i]) && Open(m.payloads)
      invariant (i == 0 || !m.compiled) && (m.compiled ==> old(m.compiled))
    {
      assert items[..i + 1][..i] == items[..i];
      AddPayloadOk(m.payloads, items[i]);
      m.AddPayload(items[i]);
    }
    assert items[..|items|] == items;
  }

  // ---- certificates ----

  function CertPayloads(certs: seq<seq<byte>>): (r: seq<Payload>)
    ensures |r| == |certs|
  {
    seq(|certs|, i requires 0 <= i < |certs| => Cert(LAST_PAYLOAD, X509V3SIGN, certs[i]))
  }

  /** The certificates among the payloads, in order. */
  function CertData(ps: seq<Payload>): seq<seq<byte>> {
    if |ps| == 0 then [] else (if ps[0].Cert? then [ps[0].certData] else []) + CertData(ps[1..])
  }

  /** extractCertificateChain: the last payload of the message is not looked at. */
  function CertChain(ps: seq<Payload>): seq<seq<byte>>
    requires |ps| > 0
  {
    CertData(ps[..|ps| - 1])
  }

  method ExtractCertificateChain(ps: seq<Payload>) returns (chain: seq<seq<byte>>)
    requires |ps| > 0
    ensures chain == CertChain(ps)
  {
    chain := [];
    ghost var all := ps[..|ps| - 1];
    for i := 0 to |ps| - 1
      invariant CertData(all) == chain + CertData(all[i..])
    {
      assert all[i..][0] == ps[i] && all[i..][1..] == all[i + 1..];
      if ps[i].Cert? {
        chain := chain + [ps[i].certData];
      }
    }
  }

  lemma {:induction false} CertDataConcat(a: seq<Payload>, b: seq<Payload>)
    ensures CertData(a + b) == CertData(a) + CertData(b)
    decreases |a|
  {
    if |a| > 0 {
      assert (a + b)[1..] == a[1..] + b;
      CertDataConcat(a[1..], b);
    } else {
      assert a + b == b;
    }
  }

  lemma {:induction false} NoCerts(a: seq<Payload>)
    requires forall i :: 0 <= i < |a| ==> !a[i].Cert?
    ensures CertData(a) == []
    decreases |a|
  {
    if |a| > 0 {
      NoCerts(a[1..]);
    }
  }

  lemma {:induction false} CertDataOf(certs: seq<seq<byte>>)
    ensures CertData(CertPayloads(certs)) == certs
    decreases |certs|
  {
    if |certs| > 0 {
      assert CertPayloads(certs)[1..] == CertPayloads(certs[1..]);
      CertDataOf(certs[1..]);
    }
  }

  lemma {:induction false} CertDataAlike(a: seq<Payload>, b: seq<Payload>)
    requires Alike(a, b)
    ensures CertData(a) == CertData(b)
    decreases |a|
  {
    if |a| > 0 {
      assert SameButNext(a[0], b[0]);
      forall i | 0 <= i < |a| - 1
        ensures SameButNext(a[1..][i], b[1..][i])
      {
        assert SameButNext(a[i + 1], b[i + 1]);
      }
      CertDataAlike(a[1..], b[1..]);
    }
  }

  // ---- the messages as lists ----

  /** What follows the header, the time stamp and the policies of the initiator's message. */
  function OfferItems(rand: seq<byte>, certs: seq<seq<byte>>, group: byte, key: seq<byte>): seq<Payload> {
    [Rand(LAST_PAYLOAD, rand)] + CertPayloads(certs) + [Dh(LAST_PAYLOAD, group, key)]
  }

  function AnswerItems(certs: seq<seq<byte>>, group: byte, key: seq<byte>, peerKey: seq<byte>): seq<Payload> {
    CertPayloads(certs) + [Dh(LAST_PAYLOAD, group, key)] + [Dh(LAST_PAYLOAD, group, peerKey)]
  }

  function OfferBody(h: Payload, t: nat, policy: seq<Policy>, items: seq<Payload>): seq<Payload> {
    AddAll(AddPolicy(HeadList(h, t), 2, policy), items)
  }

  lemma {:induction false} OfferItemsOk(rand: seq<byte>, certs: seq<seq<byte>>, group: byte, key: seq<byte>)
    requires |rand| < 256 && (forall i :: 0 <= i < |certs| ==> |certs[i]| < TWO16) && group <= 2 && |key| == DhLength(group)
    ensures Addable(OfferItems(rand, certs, group, key))
  {
  }

  lemma {:induction false} AnswerItemsOk(certs: seq<seq<byte>>, group: byte, key: seq<byte>, peerKey: seq<byte>)
    requires (forall i :: 0 <= i < |certs| ==> |certs[i]| < TWO16) && group <= 2 && |key| == |peerKey| == DhLength(group)
    ensures Addable(AnswerItems(certs, group, key, peerKey))
  {
  }

  ghost predicate Ready(dh: KeyAgreementDH)
    reads dh, dh.ka
  {
    dh.ka.Valid() && PolicyFits(dh.ka.policy) && (dh.ka.csIdMap.Some? ==> dh.ka.nCs == |dh.ka.csIdMap.value|) &&
    (forall i :: 0 <= i < |dh.certs| ==> |dh.certs[i]| < TWO16) && Commutes(dh.ops) && (dh.publicKey.Some? ==> dh.HasKey()) &&
    forall r, x :: |dh.sign(r, x)| < 4096
  }

  ghost function HdrFor(ka: KeyAgreement, dataType: byte, v: bool): Payload
    requires ka.csIdMap.Some?
    reads ka`csbId, ka`nCs, ka`csIdMapType, ka`csIdMap
  {
    DhHdr(dataType, v, ka.csbId, ka.nCs, ka.csIdMapType, ka.csIdMap.value)
  }

  lemma {:induction false} DhHdrOk(dataType: byte, v: bool, csbId: nat, nCs: byte, mapType: byte, m: seq<Cs>)
    requires csbId < TWO32 && nCs == |m| && MapOk(mapType, m)
    ensures WellFormed(DhHdr(dataType, v, csbId, nCs, mapType, m))
  {
  }

  lemma {:induction false} HasKeyLength(dh: KeyAgreementDH)
    requires dh.HasKey() && Commutes(dh.ops)
    ensures dh.publicKey.Some? && dh.Group() == dh.dhGroup <= 2 && |dh.publicKey.value| == DhLength(dh.dhGroup)
  {
    assert |dh.ops.publicKey(dh.dhGroup, dh.secret)| == DhLength(dh.dhGroup);
  }

  /** Header, time stamp, policies, random value, certificates and the public key. */
  method AddOfferBody(m: MikeyPayloads, dh: KeyAgreementDH, now: nat, random: seq<byte>)
    requires m.Local() && m.payloads == [] && Ready(dh) && dh.ka.csIdMap.Some? && dh.publicKey.Some? && now < TWO64 && |random| == RAND_SIZE
    modifies m
    ensures m.Local() && |m.payloads| > 0 && Open(m.payloads)
    ensures m.payloads == OfferBody(HdrFor(dh.ka, DH_INIT, true), now, dh.ka.policy, OfferItems(random, dh.certs, dh.dhGroup, dh.publicKey.value))
    ensures Addable(OfferItems(random, dh.certs, dh.dhGroup, dh.publicKey.value))
  {
    hide WellFormed, PolicyFits, Linked, AllOk, Commutes, MapOk, AddAll, UniqueKeys, KeyAgreementDH.HasKey, Addable, OfferItems, AddPolicy;
    var ka := dh.ka;
    DhHdrOk(DH_INIT, true, ka.csbId, ka.nCs, ka.csIdMapType, ka.csIdMap.value);
    AddHead(m, DhHdr(DH_INIT, true, ka.csbId, ka.nCs, ka.csIdMapType, ka.csIdMap.value), now);
    AddPolicyToPayload(m, ka);
    HasKeyLength(dh);
    OfferItemsOk(random, dh.certs, dh.dhGroup, dh.publicKey.value);
    AddItems(m, OfferItems(random, dh.certs, dh.Group(), dh.publicKey.value));
  }

  /** MikeyMessageDH(ka): throws without a CS ID map and without a group. r0 and r1 are the random choices of the
      signatures. */
  method CreateInit(dh: KeyAgreementDH, freshCsbId: nat, now: nat, random: seq<byte>, r0: int, r1: int) returns (m: MikeyPayloads, ok: bool)
    requires Ready(dh) && freshCsbId < TWO32 && now < TWO64 && |random| == RAND_SIZE
    modifies dh.ka`csbId, dh.ka`rand
    ensures fresh(m) && ok == (dh.ka.csIdMap.Some? && dh.publicKey.Some?)
    ensures ok ==> dh.ka.csbId == (if old(dh.ka.csbId) == 0 then freshCsbId else old(dh.ka.csbId)) && dh.ka.rand == Some(random) && m.Local()
    ensures ok ==>
      var items := OfferItems(random, dh.certs, dh.dhGroup, dh.publicKey.value);
      var body := OfferBody(HdrFor(dh.ka, DH_INIT, true), now, dh.ka.policy, items);
      |body| > 0 && Open(body) && Addable(items) && ToSign(body, GUESSED_SIGNATURE_LENGTH, false).Some? &&
      m.payloads == Signed(body, dh.sign, r0, r1, false)
  {
    hide WellFormed, PolicyFits, Linked, AllOk, Commutes, MapOk, ToSign, OfferBody, OfferItems, Addable, UniqueKeys, HdrFor, KeyAgreementDH.HasKey;
    var ka := dh.ka;
    m := new MikeyPayloads();
    if ka.csbId == 0 {
      ka.csbId := freshCsbId;
    }
    if ka.csIdMap == None || dh.publicKey == None {
      return m, false;
    }
    AddOfferBody(m, dh, now, random);
    ka.rand := Some(random);
    NoIds(m.payloads);
    ok := AddSignaturePayload(m, dh.sign, r0, r1, false);
  }

  lemma {:induction false} NoIds(body: seq<Payload>)
    requires |body| > 0
    ensures forall n :: ToSign(body, n, false).Some?
  {
  }

  // ---- authentication ----

  /** The certificate chain that authenticate() and setOffer use: the one already known, or else the one in the
      message. */
  function KnownChain(known: seq<seq<byte>>, ps: seq<Payload>): seq<seq<byte>>
    requires |ps| > 0
  {
    if known != [] then known else CertChain(ps)
  }

  /** The signature at the end of the message is accepted under the first certificate of the chain. */
  predicate LastSignatureAccepted(verify: VerifyFunction, chain: seq<seq<byte>>, ps: seq<Payload>, raw: seq<byte>)
    requires |ps| > 0
  {
    var p := ps[|ps| - 1];
    chain != [] && p.Sign? && |p.signature| <= |raw| && verify(chain[0], AllBut(raw, |p.signature|), p.signature)
  }

  /** authenticate(): true means failure. */
  method Authenticate(m: MikeyPayloads, dh: KeyAgreementDH) returns (failed: bool)
    requires m.Valid() && |m.payloads| > 0 && TotalLength(m.payloads) == |m.Raw()|
    modifies m`rawData, dh`peerCerts
    ensures m.Valid() && m.Raw() == old(m.Raw())
    ensures dh.peerCerts == KnownChain(old(dh.peerCerts), m.payloads)
    ensures failed == !LastSignatureAccepted(dh.verify, dh.peerCerts, m.payloads, m.Raw())
  {
    hide TotalLength, Length, WellFormed, CertChain;
    var sign := m.payloads[|m.payloads| - 1];
    if dh.peerCerts == [] {
      dh.peerCerts := ExtractCertificateChain(m.payloads);
      if dh.peerCerts == [] {
        return true;
      }
    }
    if !sign.Sign? {
      return true;
    }
    LastFits(m.payloads);
    MacFits(sign);
    var data := m.RawMessageData();
    var length := m.RawMessageLength();
    return !dh.verify(dh.peerCerts[0], data[..length - |sign.signature|], sign.signature);
  }

  lemma {:induction false} LastFits(ps: seq<Payload>)
    requires |ps| > 0 && AllOk(ps)
    ensures WellFormed(ps[|ps| - 1]) && TotalLength(ps) >= Length(ps[|ps| - 1])
  {
  }

  // ---- the responder ----

  /** What setOffer looks up. */
  datatype DhOffer = DhOffer(h: Payload, rest: seq<Payload>, rand: seq<byte>, later: seq<Payload>, dh: Payload)

  function OfferOf(ps: seq<Payload>): (r: Result<DhOffer, Error>)
    ensures r.Ok? ==> r.value.h.Hdr? && r.value.dh.Dh? && |r.value.later| > 0
  {
    var h := Extract(ps, HDR_TYPE);
    if h.None? || !h.value.Hdr? || h.value.dataType != DH_INIT then Err(BadContent)
    else if h.value.mapType != MAP_SRTP && h.value.mapType != MAP_IPSEC4 then Err(BadContent)
    else
      var ps1 := Remove(ps, HDR_TYPE);
      var t := Extract(ps1, T_TYPE);
      if t.None? || !t.value.Time? then Err(AssertionFailed)
      else if t.value.tsType > TS_NTP then Err(BadContent)
      else
        var ps2 := Remove(ps1, T_TYPE);
        var ps3 := DropSps(ps2);
        var rand := Extract(ps3, RAND_TYPE);
        if rand.None? || !rand.value.Rand? then Err(AssertionFailed)
        else
          var ps4 := Remove(ps3, RAND_TYPE);
          var dh := Extract(ps4, DH_TYPE);
          if dh.None? || !dh.value.Dh? || |ps4| == 0 then Err(AssertionFailed)
          else Ok(DhOffer(h.value, ps2, rand.value.randData, ps4, dh.value))
  }

  /** The group and key of the offer have been taken; for another group than before, a new key pair is made. */
  ghost predicate KeyTaken(dh: KeyAgreementDH, p: Payload, freshSecret: nat, oldGroup: int, oldKey: Option<seq<byte>>)
    requires p.Dh?
    reads dh
  {
    dh.peerKey == Some(p.key) &&
    if oldGroup != p.group then dh.secret == freshSecret && dh.dhGroup == p.group && dh.publicKey == Some(dh.ops.publicKey(p.group, freshSecret))
    else dh.publicKey == oldKey
  }

  /** setOffer */
  method SetOffer(m: MikeyPayloads, dh: KeyAgreementDH, freshSecret: nat, randomTgk: seq<byte>) returns (error: Option<Error>)
    requires m.Valid()
    modifies m`payloads, dh, dh.ka
    ensures m.Valid()
    ensures var o := OfferOf(old(m.payloads));
      if o.Err? then error == Some(o.error)
      else
        error == None && dh.ka.nCs == o.value.h.nCs && dh.ka.csbId == o.value.h.csbId &&
        dh.ka.csIdMap == Some(o.value.h.map_) && dh.ka.csIdMapType == o.value.h.mapType &&
        dh.ka.policy == Received(o.value.rest, old(dh.ka.policy)) && dh.ka.rand == Some(o.value.rand) &&
        dh.peerCerts == KnownChain(old(dh.peerCerts), o.value.later) &&
        KeyTaken(dh, o.value.dh, freshSecret, old(dh.Group()), old(dh.publicKey))
  {
    hide WellFormed, TypeOf, Extract, Remove, AllOk, Received, DropSps, CertChain;
    var ka := dh.ka;
    var i := m.ExtractPayload(HDR_TYPE);
    if i == None {
      return Some(BadContent);
    }
    var h := i.value;
    KindOf(h);
    if h.dataType != DH_INIT {
      return Some(BadContent);
    }
    ka.nCs := h.nCs;
    ka.csbId := h.csbId;
    if h.mapType != MAP_SRTP && h.mapType != MAP_IPSEC4 {
      return Some(BadContent);
    }
    ka.csIdMap := Some(h.map_);
    ka.csIdMapType := h.mapType;
    RemoveOk(m.payloads, HDR_TYPE);
    m.RemovePayload(HDR_TYPE);
    i := m.ExtractPayload(T_TYPE);
    if i == None {
      return Some(AssertionFailed);
    }
    KindOf(i.value);
    if i.value.tsType > TS_NTP {
      return Some(BadContent);
    }
    RemoveOk(m.payloads, T_TYPE);
    m.RemovePayload(T_TYPE);
    AddPolicyToKa(m, ka);
    error := TakeKey(m, dh, freshSecret, randomTgk);
  }

  /** The second half of setOffer: the random value, the certificates and the DH key. */
  method TakeKey(m: MikeyPayloads, dh: KeyAgreementDH, freshSecret: nat, randomTgk: seq<byte>) returns (error: Option<Error>)
    requires m.Valid()
    modifies m`payloads, dh, dh.ka`rand, dh.ka`tgk
    ensures m.Valid()
    ensures var ps3 := old(m.payloads); var rand := Extract(ps3, RAND_TYPE);
      if rand.None? || !rand.value.Rand? then error == Some(AssertionFailed)
      else
        var ps4 := Remove(ps3, RAND_TYPE);
        var p := Extract(ps4, DH_TYPE);
        if p.None? || !p.value.Dh? || |ps4| == 0 then error == Some(AssertionFailed)
        else
          error == None && dh.ka.rand == Some(rand.value.randData) && dh.peerCerts == KnownChain(old(dh.peerCerts), ps4) &&
          KeyTaken(dh, p.value, freshSecret, old(dh.Group()), old(dh.publicKey))
  {
    hide WellFormed, TypeOf, Extract, Remove, AllOk, CertChain;
    var i := m.ExtractPayload(RAND_TYPE);
    if i == None {
      return Some(AssertionFailed);
    }
    KindOf(i.value);
    dh.ka.rand := Some(i.value.randData);
    RemoveOk(m.payloads, RAND_TYPE);
    m.RemovePayload(RAND_TYPE);
    if |m.payloads| == 0 {
      return Some(AssertionFailed);
    }
    if dh.peerCerts == [] {
      dh.peerCerts := ExtractCertificateChain(m.payloads);
    }
    i := m.ExtractPayload(DH_TYPE);
    if i == None {
      return Some(AssertionFailed);
    }
    KindOf(i.value);
    ExtractedGroup(m.payloads);
    if dh.Group() != i.value.group {
      var ok := dh.SetGroup(i.value.group, freshSecret, randomTgk);
    }
    dh.peerKey := Some(i.value.key);
    RemoveOk(m.payloads, DH_TYPE);
    m.RemovePayload(DH_TYPE);
    return None;
  }

  lemma {:induction false} ExtractedGroup(ps: seq<Payload>)
    requires AllOk(ps)
    ensures var p := Extract(ps, DH_TYPE); p.Some? && p.value.Dh? ==> p.value.group <= 2 && |p.value.key| == DhLength(p.value.group)
  {
    hide TotalLength, Length;
    if Extract(ps, DH_TYPE).Some? {
      ExtractedLength(ps, DH_TYPE);
    }
  }

  /** buildResponse: the policies are added to the received message, not to the response. */
  method BuildResponse(m: MikeyPayloads, dh: KeyAgreementDH, now: nat, r0: int, r1: int) returns (result: MikeyPayloads)
    requires m.Valid() && Ready(dh) && dh.ka.csIdMap.Some? && dh.publicKey.Some? && dh.peerKey.Some? && |dh.peerKey.value| == DhLength(dh.dhGroup)
    requires now < TWO64
    modifies m
    ensures fresh(result) && result.Local()
    ensures var items := AnswerItems(dh.certs, dh.dhGroup, dh.publicKey.value, dh.peerKey.value);
      var body := AddAll(HeadList(HdrFor(dh.ka, DH_RESP, false), now), items);
      |body| > 0 && Open(body) && Addable(items) && ToSign(body, GUESSED_SIGNATURE_LENGTH, false).Some? &&
      result.payloads == Signed(body, dh.sign, r0, r1, false)
  {
    hide WellFormed, PolicyFits, Linked, AllOk, Commutes, MapOk, ToSign, AddAll, AnswerItems, Addable, UniqueKeys, KeyAgreementDH.HasKey, HeadList, AddPolicy;
    var ka := dh.ka;
    result := new MikeyPayloads();
    DhHdrOk(DH_RESP, false, ka.csbId, ka.nCs, ka.csIdMapType, ka.csIdMap.value);
    AddHead(result, DhHdr(DH_RESP, false, ka.csbId, ka.nCs, ka.csIdMapType, ka.csIdMap.value), now);
    AddPolicyToPayload(m, ka);
    HasKeyLength(dh);
    AnswerItemsOk(dh.certs, dh.dhGroup, dh.publicKey.value, dh.peerKey.value);
    AddItems(result, AnswerItems(dh.certs, dh.Group(), dh.publicKey.value, dh.peerKey.value));
    NoIds(result.payloads);
    var ok := AddSignaturePayload(result, dh.sign, r0, r1, false);
  }

  // ---- the initiator ----

  /** What parseResponse looks up. */
  datatype DhAnswer = DhAnswer(h: Payload, rest: seq<Payload>, later: seq<Payload>, first: Payload, second: Payload)

  function AnswerOf(ps: seq<Payload>): (r: Result<DhAnswer, Error>)
    ensures r.Ok? ==> r.value.h.Hdr? && r.value.first.Dh? && r.value.second.Dh? && |r.value.later| > 0
  {
    var h := Extract(ps, HDR_TYPE);
    if h.None? || !h.value.Hdr? || h.value.dataType != DH_RESP then Err(BadContent)
    else if h.value.mapType != MAP_SRTP && h.value.mapType != MAP_IPSEC4 then Err(BadContent)
    else
      var ps1 := Remove(ps, HDR_TYPE);
      var t := Extract(ps1, T_TYPE);
      if t.None? || !t.value.Time? then Err(AssertionFailed)
      else if t.value.tsType > TS_NTP then Err(BadContent)
      else
        var ps2 := Remove(ps1, T_TYPE);
        var ps3 := DropSps(ps2);
        var first := Extract(ps3, DH_TYPE);
        if first.None? || !first.value.Dh? || |ps3| == 0 then Err(AssertionFailed)
        else
          var second := Extract(Remove(ps3, DH_TYPE), DH_TYPE);
          if second.None? || !second.value.Dh? then Err(AssertionFailed)
          else Ok(DhAnswer(h.value, ps2, ps3, first.value, second.value))
  }

  /** parseResponse: the peer's key is the one of the two that is not the own key. */
  method ParseResponse(m: MikeyPayloads, dh: KeyAgreementDH) returns (error: Option<Error>)
    requires m.Valid() && dh.publicKey.Some?
    modifies m`payloads, dh`peerCerts, dh`peerKey, dh.ka`csIdMap, dh.ka`policy
    ensures m.Valid()
    ensures var o := AnswerOf(old(m.payloads));
      if o.Err? then error == Some(o.error)
      else
        var peer := PeerKeyOf(dh.publicKey.value, o.value.first.key, o.value.second.key);
        dh.ka.csIdMap == Some(o.value.h.map_) && dh.ka.policy == Received(o.value.rest, old(dh.ka.policy)) &&
        dh.peerCerts == KnownChain(old(dh.peerCerts), o.value.later) &&
        if peer.Some? then error == None && dh.peerKey == peer else error == Some(BadContent)
  {
    hide WellFormed, TypeOf, Extract, Remove, AllOk, Received, DropSps, CertChain;
    var i := m.ExtractPayload(HDR_TYPE);
    if i == None {
      return Some(BadContent);
    }
    var h := i.value;
    KindOf(h);
    if h.dataType != DH_RESP {
      return Some(BadContent);
    }
    if h.mapType != MAP_SRTP && h.mapType != MAP_IPSEC4 {
      return Some(BadContent);
    }
    dh.ka.csIdMap := Some(h.map_);
    RemoveOk(m.payloads, HDR_TYPE);
    m.RemovePayload(HDR_TYPE);
    i := m.ExtractPayload(T_TYPE);
    if i == None {
      return Some(AssertionFailed);
    }
    KindOf(i.value);
    if i.value.tsType > TS_NTP {
      return Some(BadContent);
    }
    RemoveOk(m.payloads, T_TYPE);
    m.RemovePayload(T_TYPE);
    AddPolicyToKa(m, dh.ka);
    error := TakePeerKey(m, dh);
  }

  /** The second half of parseResponse. */
  method TakePeerKey(m: MikeyPayloads, dh: KeyAgreementDH) returns (error: Option<Error>)
    requires m.Valid() && dh.publicKey.Some?
    modifies m`payloads, dh`peerCerts, dh`peerKey
    ensures m.Valid()
    ensures var ps3 := old(m.payloads); var first := Extract(ps3, DH_TYPE);
      if first.None? || !first.value.Dh? || |ps3| == 0 then error == Some(AssertionFailed)
      else
        var second := Extract(Remove(ps3, DH_TYPE), DH_TYPE);
        if second.None? || !second.value.Dh? then error == Some(AssertionFailed)
        else
          var peer := PeerKeyOf(dh.publicKey.value, first.value.key, second.value.key);
          dh.peerCerts == KnownChain(old(dh.peerCerts), ps3) &&
          if peer.Some? then error == None && dh.peerKey == peer else error == Some(BadContent)
  {
    hide WellFormed, TypeOf, Extract, Remove, AllOk, CertChain;
    if |m.payloads| == 0 {
      return Some(AssertionFailed);
    }
    if dh.peerCerts == [] {
      dh.peerCerts := ExtractCertificateChain(m.payloads);
    }
    var i := m.ExtractPayload(DH_TYPE);
    if i == None {
      return Some(AssertionFailed);
    }
    KindOf(i.value);
    var gotDhi := i.value.key == dh.publicKey.value;
    if !gotDhi {
      dh.peerKey := Some(i.value.key);
    }
    RemoveOk(m.payloads, DH_TYPE);
    m.RemovePayload(DH_TYPE);
    i := m.ExtractPayload(DH_TYPE);
    if i == None {
      return Some(AssertionFailed);
    }
    KindOf(i.value);
    if gotDhi {
      dh.peerKey := Some(i.value.key);
    } else if i.value.key != dh.publicKey.value {
      return Some(BadContent);
    }
    return None;
  }
}
