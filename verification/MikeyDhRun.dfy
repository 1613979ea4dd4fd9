/** A complete honest run of the Diffie-Hellman exchange. */
module MikeyDhRun {
  import opened Wrappers
  import opened Bytes
  import opened MikeyPayload
  import opened MikeyList
  import opened MikeyMessage
  import opened KeyAgreement
  import opened KeyAgreementDh
  import opened MikeyAuth
  import opened MikeyPolicy
  import opened MikeyStreams
  import MikeyPsk
  import opened MikeyPskRun
  import opened MikeyDh

  // ---- the parts of a message ----

  /** Header, time stamp, security policies, other payloads, and a signature. */
  ghost predicate Shape(f: seq<Payload>, h: Payload, t: nat, sps: seq<Payload>, items: seq<Payload>, s: Payload) {
    |f| == |sps| + |items| + 3 && SameButNext(f[0], h) && SameButNext(f[1], Time(0, TS_NTP_UTC, t)) &&
    MikeyPsk.Alike(f[2..|sps| + 2], sps) && (forall i :: 0 <= i < |sps| ==> sps[i].Sp?) &&
    MikeyPsk.Alike(f[|sps| + 2..|f| - 1], items) && f[|f| - 1] == s
  }

  lemma {:induction false} AlikePart(f: seq<Payload>, l: seq<Payload>, n: nat, i: nat, j: nat)
    requires i <= j <= n <= |f| && MikeyPsk.Alike(f[..n], l)
    ensures |l| == n && MikeyPsk.Alike(f[i..j], l[i..j])
  {
    hide SameButNext;
    forall k | 0 <= k < j - i
      ensures SameButNext(f[i..j][k], l[i..j][k])
    {
      assert f[..n][i + k] == f[i + k];
    }
  }

  lemma {:induction false} SignedAlike(body: seq<Payload>, l: seq<Payload>, s: Payload)
    requires |body| > 0 && MikeyPsk.Alike(body, l)
    ensures var f := Prefix(body, SIGN_TYPE) + [s]; f[..|body|] == Prefix(body, SIGN_TYPE) && MikeyPsk.Alike(f[..|body|], l)
  {
    hide SameButNext;
    MikeyPsk.AlikeNext(body, SIGN_TYPE);
    AlikeSymmetric(body, Prefix(body, SIGN_TYPE));
    MikeyPsk.AlikeTrans(Prefix(body, SIGN_TYPE), body, l);
  }

  lemma {:induction false} ShapeOf(h: Payload, t: nat, policy: seq<Policy>, items: seq<Payload>, s: Payload)
    requires Open(MikeyPsk.HeadList(h, t)) && PolicyFits(policy) && Addable(items)
    ensures var body := OfferBody(h, t, policy, items);
      |body| > 0 && Shape(Prefix(body, SIGN_TYPE) + [s], h, t, AddPolicy(MikeyPsk.HeadList(h, t), 2, policy)[2..], items, s)
  {
    hide SameButNext, PolicyFits, Addable, AddAll, AddPolicy, MikeyPsk.HeadList, AllOk, Linked, Prefix;
    var l2 := MikeyPsk.HeadList(h, t);
    var l3 := AddPolicy(l2, 2, policy);
    var body := AddAll(l3, items);
    AddPolicyOk(l2, policy);
    AddAllOk(l3, items);
    SignedAlike(body, l3 + items, s);
    var f := Prefix(body, SIGN_TYPE) + [s];
    MikeyPsk.HeadAlike(h, t);
    var n, k := |body|, |l3|;
    assert forall i :: 0 <= i < n ==> f[i] == f[..n][i];
    AlikePart(f, l3 + items, n, 2, k);
    AlikePart(f, l3 + items, n, k, n);
    assert (l3 + items)[2..k] == l3[2..] && (l3 + items)[k..n] == items;
    assert (l3 + items)[0] == l3[0] && (l3 + items)[1] == l3[1];
    MikeyPsk.SameChain2(f[0], l3[0], l2[0], h);
    MikeyPsk.SameChain(f[1], l3[1], l2[1]);
  }

  // ---- looking payloads up ----

  lemma {:induction false} DropNone(a: seq<Payload>)
    requires forall i :: 0 <= i < |a| ==> !a[i].Sp?
    ensures DropSps(a) == a
    decreases |a|
  {
    if |a| > 0 {
      DropNone(a[1..]);
    }
  }

  lemma {:induction false} ExtractSkip(a: seq<Payload>, b: seq<Payload>, payloadType: int)
    requires forall i :: 0 <= i < |a| ==> TypeOf(a[i]) != payloadType
    ensures Extract(a + b, payloadType) == Extract(b, payloadType) && Remove(a + b, payloadType) == a + Remove(b, payloadType)
    decreases |a|
  {
    hide TypeOf;
    if |a| > 0 {
      assert (a + b)[1..] == a[1..] + b;
      ExtractSkip(a[1..], b, payloadType);
      assert [a[0]] + (a[1..] + Remove(b, payloadType)) == a + Remove(b, payloadType);
    } else {
      assert a + b == b;
    }
  }

  lemma {:induction false} KindsAlike(p: Payload, q: Payload)
    requires SameButNext(p, q)
    ensures TypeOf(p) == TypeOf(q) && (p.Sp? <==> q.Sp?) && (p.Cert? <==> q.Cert?)
    ensures q.Rand? ==> p.Rand? && p.randData == q.randData
    ensures q.Dh? ==> p.Dh? && p.group == q.group && p.key == q.key
  {
    assert TypeOf(SetNext(p, 0)) == TypeOf(p) && TypeOf(SetNext(q, 0)) == TypeOf(q);
  }

  /** Payloads of one message after the policies: certificates, then other payloads. */
  lemma {:induction false} CertsFirst(a: seq<Payload>, certs: seq<seq<byte>>, rest: seq<Payload>)
    requires MikeyPsk.Alike(a, CertPayloads(certs) + rest) && forall i :: 0 <= i < |rest| ==> rest[i].Dh?
    ensures CertData(a) == certs && forall i :: 0 <= i < |certs| ==> a[i].Cert?
    ensures forall i :: 0 <= i < |a| ==> !a[i].Sp?
  {
    hide SameButNext;
    var l := CertPayloads(certs) + rest;
    CertDataAlike(a, l);
    CertDataConcat(CertPayloads(certs), rest);
    CertDataOf(certs);
    NoCerts(rest);
    forall i | 0 <= i < |a|
      ensures !a[i].Sp? && (i < |certs| ==> a[i].Cert?)
    {
      assert SameButNext(a[i], l[i]);
      KindsAlike(a[i], l[i]);
    }
  }

  lemma {:induction false} CertTypes(a: seq<Payload>)
    requires forall i :: 0 <= i < |a| ==> a[i].Cert?
    ensures forall i :: 0 <= i < |a| ==> TypeOf(a[i]) == CERT_TYPE
  {
  }

  /** The DH payload of the offer, after the certificates. */
  lemma {:induction false} OfferTail(r: seq<Payload>, certs: seq<seq<byte>>, group: byte, key: seq<byte>, s: Payload)
    requires |r| == |certs| + 2 && MikeyPsk.Alike(r[..|certs| + 1], CertPayloads(certs) + [Dh(LAST_PAYLOAD, group, key)]) && r[|certs| + 1] == s
    ensures CertChain(r) == certs
    ensures var p := Extract(r, DH_TYPE); p.Some? && p.value.Dh? && p.value.group == group && p.value.key == key
    ensures s.Sign? ==> forall i :: 0 <= i < |r| ==> !r[i].Sp?
  {
    hide SameButNext, Extract;
    var n := |certs|;
    var a, l := r[..n + 1], CertPayloads(certs) + [Dh(LAST_PAYLOAD, group, key)];
    CertsFirst(a, certs, [Dh(LAST_PAYLOAD, group, key)]);
    assert SameButNext(a[n], l[n]);
    KindsAlike(a[n], l[n]);
    CertTypes(a[..n]);
    ExtractSkip(a[..n], [a[n], s], DH_TYPE);
    assert r == a[..n] + [a[n], s];
    FirstOf(a[n], s, DH_TYPE);
    assert r[..|r| - 1] == a;
    forall i | 0 <= i < |r|
      ensures s.Sign? ==> !r[i].Sp?
    {
      assert i <= n ==> r[i] == a[i];
    }
  }

  lemma {:induction false} FirstOf(p: Payload, s: Payload, payloadType: int)
    requires TypeOf(p) == payloadType
    ensures Extract([p, s], payloadType) == Some(p) && Remove([p, s], payloadType) == [s]
  {
  }

  /** The two DH payloads of the answer. */
  lemma {:induction false} AnswerTail(r: seq<Payload>, certs: seq<seq<byte>>, group: byte, key: seq<byte>, peerKey: seq<byte>, s: Payload)
    requires |r| == |certs| + 3 && MikeyPsk.Alike(r[..|certs| + 2], AnswerItems(certs, group, key, peerKey)) && r[|certs| + 2] == s
    ensures CertChain(r) == certs
    ensures var p := Extract(r, DH_TYPE); p.Some? && p.value.Dh? && p.value.key == key
    ensures var p := Extract(Remove(r, DH_TYPE), DH_TYPE); p.Some? && p.value.Dh? && p.value.key == peerKey
    ensures s.Sign? ==> forall i :: 0 <= i < |r| ==> !r[i].Sp?
  {
    hide SameButNext, Extract, Remove;
    var n := |certs|;
    var d1, d2 := Dh(LAST_PAYLOAD, group, key), Dh(LAST_PAYLOAD, group, peerKey);
    var a, l := r[..n + 2], CertPayloads(certs) + [d1, d2];
    assert AnswerItems(certs, group, key, peerKey) == l;
    CertsFirst(a, certs, [d1, d2]);
    assert SameButNext(a[n], l[n]) && SameButNext(a[n + 1], l[n + 1]);
    KindsAlike(a[n], l[n]);
    KindsAlike(a[n + 1], l[n + 1]);
    CertTypes(a[..n]);
    var tail := [a[n], a[n + 1], s];
    assert r == a[..n] + tail;
    ExtractSkip(a[..n], tail, DH_TYPE);
    FirstOfThree(a[n], a[n + 1], s, DH_TYPE);
    ExtractSkip(a[..n], [a[n + 1], s], DH_TYPE);
    FirstOf(a[n + 1], s, DH_TYPE);
    assert r[..|r| - 1] == a;
    forall i | 0 <= i < |r|
      ensures s.Sign? ==> !r[i].Sp?
    {
      assert i <= n + 1 ==> r[i] == a[i];
    }
  }

  lemma {:induction false} FirstOfThree(p: Payload, q: Payload, s: Payload, payloadType: int)
    requires TypeOf(p) == payloadType
    ensures Extract([p, q, s], payloadType) == Some(p) && Remove([p, q, s], payloadType) == [q, s]
  {
  }

  lemma {:induction false} SpsAlike(a: seq<Payload>, sps: seq<Payload>)
    requires MikeyPsk.Alike(a, sps) && forall i :: 0 <= i < |sps| ==> sps[i].Sp?
    ensures forall i :: 0 <= i < |a| ==> a[i].Sp?
  {
    forall i | 0 <= i < |a|
      ensures a[i].Sp?
    {
      assert SameButNext(a[i], sps[i]);
      KindsAlike(a[i], sps[i]);
    }
  }

  lemma {:induction false} SpsHaveNoCerts(a: seq<Payload>)
    requires forall i :: 0 <= i < |a| ==> a[i].Sp?
    ensures CertData(a) == []
  {
    NoCerts(a);
  }

  /** The header and the time stamp are found first. */
  lemma {:induction false} ShapeHead(f: seq<Payload>, h: Payload, t: nat, sps: seq<Payload>, items: seq<Payload>, s: Payload)
    requires Shape(f, h, t, sps, items, s) && h.Hdr?
    ensures SameHdr(f[0], h) && Extract(f, HDR_TYPE) == Some(f[0]) && Remove(f, HDR_TYPE) == f[1..] && TypeOf(f[0]) == HDR_TYPE
    ensures f[1].Time? && f[1].tsType == TS_NTP_UTC && Extract(f[1..], T_TYPE) == Some(f[1]) && Remove(f[1..], T_TYPE) == f[2..]
  {
    hide SameButNext, MikeyPsk.Alike, Extract, Remove;
    NextFields(f[0], h);
    NextFields(f[1], Time(0, TS_NTP_UTC, t));
    HeadTwo(f);
  }

  /** The policies can be set apart from the rest. */
  lemma {:induction false} ShapePolicies(f: seq<Payload>, h: Payload, t: nat, sps: seq<Payload>, items: seq<Payload>, s: Payload)
    requires Shape(f, h, t, sps, items, s)
    requires var r := f[|sps| + 2..]; forall i :: 0 <= i < |r| ==> !r[i].Sp?
    ensures DropSps(f[2..]) == f[|sps| + 2..] && Received(f[2..], []) == Received(sps, [])
    ensures sps == [] ==> forall p :: Received(f[2..], p) == p
  {
    hide SameButNext, Received, DropSps, MikeyPsk.Alike;
    var a, r := f[2..|sps| + 2], f[|sps| + 2..];
    SpsAlike(a, sps);
    TwoParts(f, |sps| + 2);
    DropAll(a, r);
    DropNone(r);
    ReceivedConcat(a, r, []);
    MikeyPsk.ReceivedAlike(a, sps, []);
    ReceivedNone(r, Received(a, []));
    if sps == [] {
      forall p
        ensures Received(f[2..], p) == p
      {
        ReceivedNone(r, p);
      }
    }
  }

  lemma {:induction false} TwoParts<T>(f: seq<T>, k: nat)
    requires 2 <= k < |f|
    ensures f[2..] == f[2..k] + f[k..]
    ensures f[..|f| - 1] == [f[0], f[1]] + (f[2..k] + f[k..][..|f| - k - 1])
  {
  }

  /** Certificates are among the rest only. */
  lemma {:induction false} ShapeCerts(f: seq<Payload>, h: Payload, t: nat, sps: seq<Payload>, items: seq<Payload>, s: Payload)
    requires Shape(f, h, t, sps, items, s) && h.Hdr?
    ensures CertChain(f) == CertChain(f[|sps| + 2..])
  {
    hide SameButNext, CertData, MikeyPsk.Alike;
    var a, r := f[2..|sps| + 2], f[|sps| + 2..];
    NextFields(f[0], h);
    NextFields(f[1], Time(0, TS_NTP_UTC, t));
    SpsAlike(a, sps);
    TwoParts(f, |sps| + 2);
    var head := [f[0], f[1]];
    CertDataConcat(head, a + r[..|r| - 1]);
    CertDataConcat(a, r[..|r| - 1]);
    SpsHaveNoCerts(a);
    NoCerts(head);
  }

  lemma {:induction false} ReceivedNone(r: seq<Payload>, policy: seq<Policy>)
    requires forall i :: 0 <= i < |r| ==> !r[i].Sp?
    ensures Received(r, policy) == policy
  {
    ReceivedSkips(r, [], policy);
    assert r + [] == r;
  }

  lemma {:induction false} HeadTwo(f: seq<Payload>)
    requires |f| >= 2 && f[0].Hdr? && f[1].Time?
    ensures Extract(f, HDR_TYPE) == Some(f[0]) && Remove(f, HDR_TYPE) == f[1..] && TypeOf(f[0]) == HDR_TYPE
    ensures Extract(f[1..], T_TYPE) == Some(f[1]) && Remove(f[1..], T_TYPE) == f[2..]
  {
    assert f[1..][0] == f[1] && f[1..][1..] == f[2..];
  }

  // ---- the offer ----

  lemma {:induction false} RandFirst(r: seq<Payload>)
    requires |r| > 0 && r[0].Rand?
    ensures Extract(r, RAND_TYPE) == Some(r[0]) && Remove(r, RAND_TYPE) == r[1..]
  {
  }

  /** Every look-up of the responder finds what the initiator put there. */
  lemma {:induction false} OfferLookups(f: seq<Payload>, h: Payload, t: nat, sps: seq<Payload>, rand: seq<byte>, certs: seq<seq<byte>>, group: byte,
                                        key: seq<byte>, s: Payload)
    requires Shape(f, h, t, sps, OfferItems(rand, certs, group, key), s) && h.Hdr? && s.Sign?
    requires h.dataType == DH_INIT && (h.mapType == MAP_SRTP || h.mapType == MAP_IPSEC4)
    ensures SameHdr(f[0], h) && TypeOf(f[0]) == HDR_TYPE && CertChain(f) == certs
    ensures var o := OfferOf(f);
      o.Ok? && o.value.h == f[0] && o.value.rest == f[2..] && o.value.rand == rand && CertChain(o.value.later) == certs &&
      o.value.dh.group == group && o.value.dh.key == key
    ensures Received(f[2..], []) == Received(sps, [])
  {
    hide SameButNext, Extract, Remove, DropSps, Received, CertChain;
    var items := OfferItems(rand, certs, group, key);
    var r := f[|sps| + 2..];
    var k := |certs|;
    ShapeHead(f, h, t, sps, items, s);
    assert r[..|r| - 1] == f[|sps| + 2..|f| - 1];
    AlikePart(r, items, k + 2, 0, 1);
    AlikePart(r, items, k + 2, 1, k + 2);
    assert items[1..k + 2] == CertPayloads(certs) + [Dh(LAST_PAYLOAD, group, key)];
    assert SameButNext(r[0..1][0], items[0..1][0]);
    KindsAlike(r[0], items[0]);
    assert r[1..][..k + 1] == r[1..k + 2];
    OfferTail(r[1..], certs, group, key, s);
    RandFirst(r);
    assert forall i :: 1 <= i < |r| ==> r[i] == r[1..][i - 1];
    ShapePolicies(f, h, t, sps, items, s);
    ShapeCerts(f, h, t, sps, items, s);
    CertsAfter(r);
  }

  lemma {:induction false} CertsAfter(r: seq<Payload>)
    requires |r| >= 2 && r[0].Rand?
    ensures CertChain(r) == CertChain(r[1..])
  {
    assert r[..|r| - 1] == [r[0]] + r[1..][..|r| - 2];
    CertDataConcat([r[0]], r[1..][..|r| - 2]);
    NoCerts([r[0]]);
  }

  /** Every look-up of the initiator finds what the responder put there. */
  lemma {:induction false} AnswerLookups(f: seq<Payload>, h: Payload, t: nat, certs: seq<seq<byte>>, group: byte, key: seq<byte>, peerKey: seq<byte>,
                                         s: Payload)
    requires Shape(f, h, t, [], AnswerItems(certs, group, key, peerKey), s) && h.Hdr? && s.Sign?
    requires h.dataType == DH_RESP && (h.mapType == MAP_SRTP || h.mapType == MAP_IPSEC4)
    ensures SameHdr(f[0], h) && TypeOf(f[0]) == HDR_TYPE && CertChain(f) == certs
    ensures var o := AnswerOf(f);
      o.Ok? && o.value.h == f[0] && o.value.rest == f[2..] && CertChain(o.value.later) == certs &&
      o.value.first.key == key && o.value.second.key == peerKey
    ensures forall p :: Received(f[2..], p) == p
  {
    hide SameButNext, Extract, Remove, DropSps, Received, CertChain;
    var items := AnswerItems(certs, group, key, peerKey);
    var r := f[2..];
    ShapeHead(f, h, t, [], items, s);
    assert r[..|r| - 1] == f[2..|f| - 1];
    AnswerTail(r, certs, group, key, peerKey, s);
    ShapePolicies(f, h, t, [], items, s);
    ShapeCerts(f, h, t, [], items, s);
  }

  // ---- signatures on the way ----

  /** A party's certificate goes with its private key, whose signatures have n bytes. */
  ghost predicate Certified(dh: KeyAgreementDH, verify: VerifyFunction, n: nat) {
    dh.certs != [] && 1 <= n < 4096 && forall r, x :: |dh.sign(r, x)| == n && verify(dh.certs[0], x, dh.sign(r, x))
  }

  lemma {:induction false} SignedAccepted(body: seq<Payload>, dh: KeyAgreementDH, verify: VerifyFunction, n: nat, r0: int, r1: int)
    requires |body| > 0 && Open(body) && Certified(dh, verify, n) && TypeOf(body[0]) == HDR_TYPE
    requires ToSign(body, GUESSED_SIGNATURE_LENGTH, false).Some?
    ensures var f := Signed(body, dh.sign, r0, r1, false);
      |f| == |body| + 1 && f == Prefix(body, SIGN_TYPE) + [f[|body|]] && f[|body|].Sign? && ParseList(HDR_TYPE, EncodeAll(f)) == Ok(f) &&
      LastSignatureAccepted(verify, dh.certs, f, EncodeAll(f))
  {
    hide EncodeAll, ParseList, ToSign, AllOk, Linked, TypeOf, Prefix;
    var f := Signed(body, dh.sign, r0, r1, false);
    var check := (x: seq<byte>, s: seq<byte>) => verify(dh.certs[0], x, s);
    assert KeyPair(dh.sign, check, n);
    SignatureVerifies(body, dh.sign, check, n, r0, r1, false);
    LastIsFirst(body, f);
  }

  lemma {:induction false} LastIsFirst(body: seq<Payload>, f: seq<Payload>)
    requires |body| > 0 && Open(body) && |f| == |body| + 1 && f == Prefix(body, SIGN_TYPE) + [f[|body|]] && f[|body|].Sign?
    ensures Extract(f, SIGN_TYPE) == Some(f[|body|])
  {
    NoSignature(body);
    KindOf(f[|body|]);
    ExtractFirst(Prefix(body, SIGN_TYPE), f[|body|], SIGN_TYPE);
  }

  // ---- the run ----

  lemma {:induction false} BodyHeader(h: Payload, t: nat, policy: seq<Policy>, items: seq<Payload>)
    requires h.Hdr? && h.next == LAST_PAYLOAD && WellFormed(h) && t < TWO64 && PolicyFits(policy) && Addable(items)
    ensures var body := OfferBody(h, t, policy, items); |body| > 0 && TypeOf(body[0]) == HDR_TYPE && Open(MikeyPsk.HeadList(h, t))
  {
    hide WellFormed, PolicyFits, Addable, AddAll, AddPolicy, AllOk, Linked;
    MikeyPsk.HeadOk(h, t);
    var l2 := MikeyPsk.HeadList(h, t);
    AddPolicyOk(l2, policy);
    AddAllOk(AddPolicy(l2, 2, policy), items);
    assert SameButNext(l2[0], AddPolicy(l2, 2, policy)[0]);
    KindsAlike(AddPolicy(l2, 2, policy)[0], l2[0]);
  }

  lemma {:induction false} NoPolicyAdded(ps: seq<Payload>)
    ensures AddPolicy(ps, |ps|, []) == ps && PolicyFits([])
  {
    NoKeys();
    forall no: byte, prot: byte
      ensures GroupLength([], no, prot) + 5 < TWO16
    {
    }
  }

  /** The offer as bytes: it parses to the same payloads, its signature is accepted under the certificate it
      carries, and the responder finds the key, the random value and the policies. */
  lemma {:induction false} DhOfferAccepted(dh: KeyAgreementDH, verify: VerifyFunction, n: nat, h: Payload, t: nat, policy: seq<Policy>,
                                           rand: seq<byte>, group: byte, key: seq<byte>, r0: int, r1: int)
    requires Certified(dh, verify, n) && PolicyFits(policy) && t < TWO64
    requires h.Hdr? && h.next == LAST_PAYLOAD && WellFormed(h) && h.dataType == DH_INIT
    requires var items := OfferItems(rand, dh.certs, group, key); var body := OfferBody(h, t, policy, items);
      Addable(items) && |body| > 0 && Open(body) && ToSign(body, GUESSED_SIGNATURE_LENGTH, false).Some?
    ensures var f := Signed(OfferBody(h, t, policy, OfferItems(rand, dh.certs, group, key)), dh.sign, r0, r1, false);
      |f| > 2 && ParseList(HDR_TYPE, EncodeAll(f)) == Ok(f) && LastSignatureAccepted(verify, dh.certs, f, EncodeAll(f)) &&
      SameHdr(f[0], h) && CertChain(f) == dh.certs &&
      var o := OfferOf(f);
      o.Ok? && o.value.h == f[0] && o.value.rest == f[2..] && o.value.rand == rand && CertChain(o.value.later) == dh.certs &&
      o.value.dh.group == group && o.value.dh.key == key && UniqueKeys(Received(f[2..], [])) && SamePolicy(Received(f[2..], []), policy) &&
      PolicyFits(Received(f[2..], []))
  {
    hide EncodeAll, ParseList, ToSign, AllOk, Linked, TypeOf, Prefix, WellFormed, PolicyFits, Addable, OfferItems, OfferBody, Shape, Received, Extract;
    hide OfferOf, CertChain, LastSignatureAccepted, SamePolicy, UniqueKeys, AddPolicy, MikeyPsk.HeadList, Certified, Signed;
    var items := OfferItems(rand, dh.certs, group, key);
    var body := OfferBody(h, t, policy, items);
    var f := Signed(body, dh.sign, r0, r1, false);
    BodyHeader(h, t, policy, items);
    SignedAccepted(body, dh, verify, n, r0, r1);
    var sps := AddPolicy(MikeyPsk.HeadList(h, t), 2, policy)[2..];
    ShapeOf(h, t, policy, items, f[|body|]);
    MikeyPsk.HdrFits(h);
    OfferLookups(f, h, t, sps, rand, dh.certs, group, key, f[|body|]);
    PolicyArrives(MikeyPsk.HeadList(h, t), policy);
    ArrivedFits(policy, Received(sps, []));
    ShapeSize(f, h, t, sps, items, f[|body|]);
  }

  lemma {:induction false} ShapeSize(f: seq<Payload>, h: Payload, t: nat, sps: seq<Payload>, items: seq<Payload>, s: Payload)
    requires Shape(f, h, t, sps, items, s)
    ensures |f| > 2
  {
  }

  /** The answer as bytes. */
  lemma {:induction false} DhAnswerAccepted(dh: KeyAgreementDH, verify: VerifyFunction, n: nat, h: Payload, t: nat, group: byte, key: seq<byte>,
                                            peerKey: seq<byte>, r0: int, r1: int)
    requires Certified(dh, verify, n) && t < TWO64
    requires h.Hdr? && h.next == LAST_PAYLOAD && WellFormed(h) && h.dataType == DH_RESP
    requires var items := AnswerItems(dh.certs, group, key, peerKey); var body := AddAll(MikeyPsk.HeadList(h, t), items);
      Addable(items) && |body| > 0 && Open(body) && ToSign(body, GUESSED_SIGNATURE_LENGTH, false).Some?
    ensures var f := Signed(AddAll(MikeyPsk.HeadList(h, t), AnswerItems(dh.certs, group, key, peerKey)), dh.sign, r0, r1, false);
      |f| > 2 && ParseList(HDR_TYPE, EncodeAll(f)) == Ok(f) && LastSignatureAccepted(verify, dh.certs, f, EncodeAll(f)) &&
      SameHdr(f[0], h) && CertChain(f) == dh.certs && (forall p :: Received(f[2..], p) == p) &&
      var o := AnswerOf(f);
      o.Ok? && o.value.h == f[0] && o.value.rest == f[2..] && CertChain(o.value.later) == dh.certs &&
      o.value.first.key == key && o.value.second.key == peerKey
  {
    hide EncodeAll, ParseList, ToSign, AllOk, Linked, TypeOf, Prefix, WellFormed, PolicyFits, Addable, AnswerItems, AddAll, Shape, Received, Extract;
    hide AnswerOf, CertChain, LastSignatureAccepted, AddPolicy, MikeyPsk.HeadList, Certified, Signed;
    var items := AnswerItems(dh.certs, group, key, peerKey);
    NoPolicyAdded(MikeyPsk.HeadList(h, t));
    var body := OfferBody(h, t, [], items);
    var f := Signed(body, dh.sign, r0, r1, false);
    BodyHeader(h, t, [], items);
    SignedAccepted(body, dh, verify, n, r0, r1);
    ShapeOf(h, t, [], items, f[|body|]);
    MikeyPsk.HdrFits(h);
    assert MikeyPsk.HeadList(h, t)[2..] == [];
    AnswerLookups(f, h, t, dh.certs, group, key, peerKey, f[|body|]);
    ShapeSize(f, h, t, [], items, f[|body|]);
  }

  /** The order of the two DH payloads does not matter: with the initiator's own key and another one, in either order, the
      signed answer parses back, is accepted, and the other key is the one taken for the peer's. */
  lemma {:induction false} AnswerInEitherOrder(dh: KeyAgreementDH, verify: VerifyFunction, n: nat, h: Payload, t: nat, group: byte, own: seq<byte>,
                                               peer: seq<byte>, ownFirst: bool, r0: int, r1: int)
    requires Certified(dh, verify, n) && t < TWO64
    requires h.Hdr? && h.next == LAST_PAYLOAD && WellFormed(h) && h.dataType == DH_RESP
    requires var items := if ownFirst then AnswerItems(dh.certs, group, own, peer) else AnswerItems(dh.certs, group, peer, own);
      var body := AddAll(MikeyPsk.HeadList(h, t), items);
      Addable(items) && |body| > 0 && Open(body) && ToSign(body, GUESSED_SIGNATURE_LENGTH, false).Some?
    ensures var items := if ownFirst then AnswerItems(dh.certs, group, own, peer) else AnswerItems(dh.certs, group, peer, own);
      var f := Signed(AddAll(MikeyPsk.HeadList(h, t), items), dh.sign, r0, r1, false);
      |f| > 2 && ParseList(HDR_TYPE, EncodeAll(f)) == Ok(f) && LastSignatureAccepted(verify, dh.certs, f, EncodeAll(f)) &&
      var o := AnswerOf(f);
      o.Ok? && PeerKeyOf(own, o.value.first.key, o.value.second.key) == Some(peer)
  {
    hide EncodeAll, ParseList, ToSign, AllOk, Linked, WellFormed, Addable, AnswerItems, AddAll, AnswerOf, LastSignatureAccepted, Certified, Signed;
    hide MikeyPsk.HeadList;
    var first, second := if ownFirst then own else peer, if ownFirst then peer else own;
    DhAnswerAccepted(dh, verify, n, h, t, group, first, second, r0, r1);
  }

  /** What the responder knows when it has taken over the offer. */
  ghost predicate OfferTaken(a: KeyAgreementDH, b: KeyAgreementDH)
    reads a, b, a.ka, b.ka
  {
    b.ka.rand == a.ka.rand && b.ka.csbId == a.ka.csbId && b.ka.csIdMap == a.ka.csIdMap && b.ka.csIdMapType == a.ka.csIdMapType &&
    b.ka.nCs == a.ka.nCs && SamePolicy(b.ka.policy, a.ka.policy) && PolicyFits(b.ka.policy) && UniqueKeys(b.ka.policy) &&
    b.peerKey == a.publicKey && b.peerCerts == a.certs && b.dhGroup == a.dhGroup && b.HasKey()
  }

  /** The offer reaches the responder, which authenticates it and takes over its contents. */
  method OfferPhase(a: KeyAgreementDH, b: KeyAgreementDH, na: nat, freshCsbId: nat, freshSecret: nat, randomTgk: seq<byte>, t1: nat, random: seq<byte>,
                    r0: int, r1: int) returns (ok: bool, m: MikeyPayloads)
    requires a != b && a.ka != b.ka && a.ops == b.ops && a.verify == b.verify && Certified(a, b.verify, na)
    requires Ready(a) && a.ka.csIdMap.Some? && a.publicKey.Some? && freshCsbId < TWO32 && t1 < TWO64 && |random| == MikeyPsk.RAND_SIZE
    requires b.ka.policy == [] && b.publicKey == None && b.peerCerts == [] && (b.useSim ==> a.dhGroup == OAKLEY5)
    modifies a.ka`csbId, a.ka`rand, b, b.ka
    ensures ok && fresh(m) && m.Valid() && a.ka.rand == Some(random) && a.ka.csbId < TWO32 && OfferTaken(a, b)
  {
    hide EncodeAll, ParseList, AllOk, Linked, TypeOf, WellFormed, PolicyFits, Received, OfferOf, CertChain, Certified, OfferBody, OfferItems, Addable;
    hide LastSignatureAccepted, SamePolicy, UniqueKeys, Signed, ToSign, TotalLength, MapOk, Commutes;
    var m1, created := CreateInit(a, freshCsbId, t1, random, r0, r1);
    ghost var h, f := HdrFor(a.ka, DH_INIT, true), m1.payloads;
    DhHdrOk(DH_INIT, true, a.ka.csbId, a.ka.nCs, a.ka.csIdMapType, a.ka.csIdMap.value);
    DhOfferAccepted(a, b.verify, na, h, t1, a.ka.policy, random, a.dhGroup, a.publicKey.value, r0, r1);
    OpenAllOk(m1);
    EncodeAllLength(f);
    var error;
    m, error := Transmit(m1);
    var failed := Authenticate(m, b);
    error := SetOffer(m, b, freshSecret, randomTgk);
    ok := !failed && error == None;
  }

  /** The answer reaches the initiator, which authenticates it and takes over the map and the peer's key. */
  method AnswerPhase(a: KeyAgreementDH, b: KeyAgreementDH, nb: nat, t2: nat, r0: int, r1: int, m: MikeyPayloads) returns (ok: bool)
    requires a != b && a.ka != b.ka && a.verify == b.verify && Certified(b, a.verify, nb) && Ready(b) && t2 < TWO64
    requires b.ka.csIdMap.Some? && b.publicKey.Some? && b.peerKey == a.publicKey && a.publicKey.Some? && |a.publicKey.value| == DhLength(b.dhGroup)
    requires m.Valid() && a.peerCerts == []
    modifies m, a`peerCerts, a`peerKey, a.ka`csIdMap, a.ka`policy
    ensures ok && a.peerKey == b.publicKey && a.peerCerts == b.certs && a.ka.csIdMap == b.ka.csIdMap && a.ka.policy == old(a.ka.policy)
  {
    hide EncodeAll, ParseList, AllOk, Linked, TypeOf, WellFormed, PolicyFits, Received, AnswerOf, CertChain, Certified, AddAll, AnswerItems, Addable;
    hide LastSignatureAccepted, UniqueKeys, Signed, ToSign, TotalLength, MapOk, Commutes, MikeyPsk.HeadList;
    ghost var h := HdrFor(b.ka, DH_RESP, false);
    var result := BuildResponse(m, b, t2, r0, r1);
    DhHdrOk(DH_RESP, false, b.ka.csbId, b.ka.nCs, b.ka.csIdMapType, b.ka.csIdMap.value);
    DhAnswerAccepted(b, a.verify, nb, h, t2, b.dhGroup, b.publicKey.value, b.peerKey.value, r0, r1);
    OpenAllOk(result);
    EncodeAllLength(result.payloads);
    var m4, error := Transmit(result);
    var failed := Authenticate(m4, a);
    error := ParseResponse(m4, a);
    ok := !failed && error == None;
  }

  /** A whole run, with signatures of any fixed lengths na and nb: both messages are accepted, each party ends with
      the other's public key and certificates, and both compute the same TGK. */
  method HonestDhRun(a: KeyAgreementDH, b: KeyAgreementDH, na: nat, nb: nat, freshCsbId: nat, freshSecret: nat, randomTgk: seq<byte>, t1: nat, t2: nat,
                     random: seq<byte>, receivers: seq<nat>, ra: (int, int), rb: (int, int)) returns (ok: bool)
    requires a != b && a.ka != b.ka && a.ops == b.ops && a.verify == b.verify && a.ka.hmac == b.ka.hmac
    requires Certified(a, a.verify, na) && Certified(b, b.verify, nb)
    requires Ready(a) && a.ka.csIdMap.Some? && a.ka.csIdMapType == MAP_SRTP && a.publicKey.Some? && a.peerCerts == []
    requires b.ka.policy == [] && b.publicKey == None && b.peerCerts == [] && (b.useSim ==> a.dhGroup == OAKLEY5)
    requires forall i :: 0 <= i < |b.certs| ==> |b.certs[i]| < TWO16
    requires freshCsbId < TWO32 && t1 < TWO64 && t2 < TWO64 && |random| == MikeyPsk.RAND_SIZE && SsrcsOk(receivers)
    modifies a, b, a.ka, b.ka
    ensures ok && Paired(a, b) && Agreed(a.ka, b.ka) && a.peerCerts == b.certs && b.peerCerts == a.certs
    ensures a.ka.csIdMap == Some(ResponderMap(old(a.ka.csIdMap).value, receivers))
  {
    hide AllOk, PolicyFits, UniqueKeys, MapOk, SsrcsOk, ResponderMap, Commutes, SamePolicy, Certified;
    var taken, m := OfferPhase(a, b, na, freshCsbId, freshSecret, randomTgk, t1, random, ra.0, ra.1);
    AddStreamsAsResponder(b.ka, receivers);
    HasKeyLength(a);
    SignatureSizes(b, nb);
    ok := AnswerPhase(a, b, nb, t2, rb.0, rb.1, m);
    ComputeBoth(a, b);
    SameSymmetricPolicy(a.ka.policy, b.ka.policy);
    ok := ok && taken;
  }

  lemma {:induction false} SignatureSizes(dh: KeyAgreementDH, n: nat)
    requires Certified(dh, dh.verify, n)
    ensures forall r, x :: |dh.sign(r, x)| < 4096
  {
  }
}
