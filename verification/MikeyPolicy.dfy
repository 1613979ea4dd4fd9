/** Security policies on their way from one party to the other: addPolicyToPayload and addPolicyTo_ka. */
module MikeyPolicy {
  import opened Wrappers
  import opened Bytes
  import opened MikeyPayload
  import opened MikeyList
  import opened MikeyMessage
  import opened MikeySp
  import opened KeyAgreement

  // ---- one security policy payload ----

  /** addMikeyPolicyParam on the payload as a value: the length is the sum over the parameters, in 16 bits. */
  function WithSpParam(sp: Payload, p: Param): (r: Payload)
    requires sp.Sp?
    ensures r.Sp? && r.next == sp.next && r.policyNo == sp.policyNo && r.protType == sp.protType
    ensures r.params == AddParam(sp.params, p)
  {
    sp.(paramLength := ParamsLength(AddParam(sp.params, p)) % TWO16, params := AddParam(sp.params, p))
  }

  /** The parameter e of a policy lies in some security policy payload of the list. */
  ghost predicate InSp(ps: seq<Payload>, e: Policy) { exists k :: 0 <= k < |ps| && Carries(ps[k], e) }

  ghost predicate Carries(sp: Payload, e: Policy) {
    sp.Sp? && sp.policyNo == e.policyNo && sp.protType == e.protType && Param(e.policyType, e.value) in sp.params
  }

  // ---- sending ----

  predicate IsSpOf(p: Payload, policyNo: byte, protType: byte) { p.Sp? && p.policyNo == policyNo && p.protType == protType }

  /** The payload created for a policy number and protocol, among those from index start on. */
  function FindSp(ps: seq<Payload>, start: nat, policyNo: byte, protType: byte): (k: nat)
    requires start <= |ps|
    ensures start <= k <= |ps|
    ensures k < |ps| ==> IsSpOf(ps[k], policyNo, protType)
    ensures forall j :: start <= j < k ==> !IsSpOf(ps[j], policyNo, protType)
    decreases |ps| - start
  {
    if start == |ps| || IsSpOf(ps[start], policyNo, protType) then start else FindSp(ps, start + 1, policyNo, protType)
  }

  /** One turn of the loop of addPolicyToPayload. */
  function AddEntry(ps: seq<Payload>, start: nat, e: Policy): (r: seq<Payload>)
    requires start <= |ps|
    ensures |ps| <= |r| && start <= |r|
  {
    var k := FindSp(ps, start, e.policyNo, e.protType);
    var ps1 := if k < |ps| then ps else MikeyList.AddPayload(ps, Sp(LAST_PAYLOAD, e.policyNo, e.protType, 0, []));
    ps1[k := WithSpParam(ps1[k], Param(e.policyType, e.value))]
  }

  function AddPolicy(ps: seq<Payload>, start: nat, policy: seq<Policy>): (r: seq<Payload>)
    requires start <= |ps|
    ensures |ps| <= |r| && start <= |r|
  {
    if |policy| == 0 then ps else AddEntry(AddPolicy(ps, start, policy[..|policy| - 1]), start, policy[|policy| - 1])
  }

  /** The bytes that the parameters of one policy number and protocol take. */
  function GroupLength(policy: seq<Policy>, policyNo: byte, protType: byte): nat {
    if |policy| == 0 then 0
    else
      var e := policy[|policy| - 1];
      GroupLength(policy[..|policy| - 1], policyNo, protType) +
      if e.policyNo == policyNo && e.protType == protType then 2 + |e.value| else 0
  }

  /** Policies that fit their payloads. */
  ghost predicate PolicyFits(policy: seq<Policy>) {
    UniqueKeys(policy) && (forall i :: 0 <= i < |policy| ==> |policy[i].value| < 256) &&
    forall no: byte, prot: byte :: GroupLength(policy, no, prot) + 5 < TWO16
  }

  /** A security policy payload carries exactly the entries of its policy number and protocol. */
  ghost predicate SentSp(sp: Payload, policy: seq<Policy>) {
    sp.Sp? && ParamsOk(sp.params) && sp.paramLength == ParamsLength(sp.params) == GroupLength(policy, sp.policyNo, sp.protType) &&
    forall p :: p in sp.params <==> Policy(sp.policyNo, sp.protType, p.ptype, p.value) in policy
  }

  /** The payloads from index start on carry exactly the given entries, one payload for each policy number and
      protocol. */
  ghost predicate Sent(ps: seq<Payload>, start: nat, policy: seq<Policy>) {
    start <= |ps| && (forall k :: start <= k < |ps| ==> SentSp(ps[k], policy)) &&
    (forall j, k :: start <= j < k < |ps| ==> !IsSpOf(ps[j], ps[k].policyNo, ps[k].protType)) &&
    forall e :: e in policy ==> FindSp(ps, start, e.policyNo, e.protType) < |ps|
  }

  lemma {:induction false} FindSpIs(ps: seq<Payload>, start: nat, k: nat, no: byte, prot: byte)
    requires start <= k < |ps| && IsSpOf(ps[k], no, prot)
    ensures FindSp(ps, start, no, prot) <= k
  {
    assert IsSpOf(ps[k], no, prot);
  }

  /** Another entry does not concern a payload of a different policy number or protocol. */
  lemma {:induction false} OtherSp(sp: Payload, policy: seq<Policy>, e: Policy)
    requires SentSp(sp, policy) && !IsSpOf(sp, e.policyNo, e.protType)
    ensures SentSp(sp, policy + [e])
  {
    assert (policy + [e])[..|policy|] == policy;
  }

  lemma {:induction false} NewType(sp: Payload, policy: seq<Policy>, e: Policy)
    requires SentSp(sp, policy) && IsSpOf(sp, e.policyNo, e.protType) && UniqueKeys(policy + [e])
    ensures forall i :: 0 <= i < |sp.params| ==> sp.params[i].ptype != e.policyType
  {
    var all := policy + [e];
    forall i | 0 <= i < |sp.params|
      ensures sp.params[i].ptype != e.policyType
    {
      var q := Policy(sp.policyNo, sp.protType, sp.params[i].ptype, sp.params[i].value);
      assert sp.params[i] in sp.params;
      var j :| 0 <= j < |policy| && policy[j] == q;
      assert !SameKey(all[j], all[|policy|]);
    }
  }

  lemma {:induction false} AppendParam(ps: seq<Param>, p: Param)
    requires ParamsOk(ps) && |p.value| < 256 && forall i :: 0 <= i < |ps| ==> ps[i].ptype != p.ptype
    ensures ParamsOk(ps + [p]) && forall q :: q in ps + [p] <==> q in ps || q == p
  {
  }

  lemma {:induction false} GroupStep(policy: seq<Policy>, e: Policy, no: byte, prot: byte)
    ensures GroupLength(policy + [e], no, prot) ==
      GroupLength(policy, no, prot) + if e.policyNo == no && e.protType == prot then 2 + |e.value| else 0
  {
    assert (policy + [e])[..|policy|] == policy;
  }

  lemma {:induction false} FitsLast(policy: seq<Policy>, e: Policy)
    requires PolicyFits(policy + [e])
    ensures UniqueKeys(policy + [e]) && |e.value| < 256 && GroupLength(policy + [e], e.policyNo, e.protType) + 5 < TWO16
  {
    assert (policy + [e])[|policy|] == e;
  }

  lemma {:induction false} OwnSp(sp: Payload, policy: seq<Policy>, e: Policy)
    requires SentSp(sp, policy) && IsSpOf(sp, e.policyNo, e.protType) && PolicyFits(policy + [e])
    ensures SentSp(WithSpParam(sp, Param(e.policyType, e.value)), policy + [e])
  {
    hide PolicyFits, ParamsOk, AddParam, ParamsLength, GroupLength, UniqueKeys;
    var all, p := policy + [e], Param(e.policyType, e.value);
    FitsLast(policy, e);
    NewType(sp, policy, e);
    AddNewParam(sp.params, p);
    AppendParam(sp.params, p);
    ParamsLengthConcat(sp.params, [p]);
    OneParam(p);
    GroupStep(policy, e, e.policyNo, e.protType);
    var r := WithSpParam(sp, p);
    forall q
      ensures q in r.params <==> Policy(r.policyNo, r.protType, q.ptype, q.value) in all
    {
      assert Policy(r.policyNo, r.protType, q.ptype, q.value) == e <==> q == p;
    }
  }

  lemma {:induction false} FreshSp(policy: seq<Policy>, next: byte, no: byte, prot: byte)
    requires forall e :: e in policy ==> !(e.policyNo == no && e.protType == prot)
    ensures SentSp(Sp(next, no, prot, 0, []), policy)
  {
    NoParams();
    NoGroup(policy, no, prot);
  }

  lemma {:induction false} NoGroup(policy: seq<Policy>, no: byte, prot: byte)
    requires forall e :: e in policy ==> !(e.policyNo == no && e.protType == prot)
    ensures GroupLength(policy, no, prot) == 0
  {
    if |policy| > 0 {
      assert policy[|policy| - 1] in policy;
      assert forall e :: e in policy[..|policy| - 1] ==> e in policy;
      NoGroup(policy[..|policy| - 1], no, prot);
    }
  }

  /** Lists that differ in next fields only. */
  predicate SameButNext(p: Payload, q: Payload) { SetNext(p, 0) == SetNext(q, 0) }

  lemma {:induction false} SentSpNext(p: Payload, q: Payload, policy: seq<Policy>)
    requires SameButNext(p, q) && SentSp(p, policy)
    ensures SentSp(q, policy) && p.policyNo == q.policyNo && p.protType == q.protType
  {
  }

  /** The list to which the entry is added: with an empty payload at the end if there is none for it yet. */
  function Opened(ps: seq<Payload>, start: nat, e: Policy): (r: seq<Payload>)
    requires start <= |ps|
    ensures |ps| <= |r| && FindSp(ps, start, e.policyNo, e.protType) < |r|
  {
    if FindSp(ps, start, e.policyNo, e.protType) < |ps| then ps
    else MikeyList.AddPayload(ps, Sp(LAST_PAYLOAD, e.policyNo, e.protType, 0, []))
  }

  lemma {:induction false} OpenedSent(ps: seq<Payload>, start: nat, policy: seq<Policy>, e: Policy)
    requires Sent(ps, start, policy) && FindSp(ps, start, e.policyNo, e.protType) == |ps|
    ensures Sent(Opened(ps, start, e), start, policy)
    ensures FindSp(Opened(ps, start, e), start, e.policyNo, e.protType) == |ps|
  {
    hide SentSp;
    var sp := Sp(LAST_PAYLOAD, e.policyNo, e.protType, 0, []);
    var r := Opened(ps, start, e);
    forall f | f in policy
      ensures !(f.policyNo == e.policyNo && f.protType == e.protType)
    {
      assert FindSp(ps, start, f.policyNo, f.protType) < |ps|;
    }
    FreshSp(policy, LAST_PAYLOAD, e.policyNo, e.protType);
    forall k | start <= k < |ps|
      ensures SentSp(r[k], policy) && r[k].Sp? && r[k].policyNo == ps[k].policyNo && r[k].protType == ps[k].protType
    {
      assert SameButNext(ps[k], r[k]);
      SentSpNext(ps[k], r[k], policy);
      SpOfSent(r[k], policy);
    }
    forall f | f in policy
      ensures FindSp(r, start, f.policyNo, f.protType) < |r|
    {
      FindSpIs(r, start, FindSp(ps, start, f.policyNo, f.protType), f.policyNo, f.protType);
    }
    FindSpIs(r, start, |ps|, e.policyNo, e.protType);
  }

  lemma {:induction false} SpOfSent(sp: Payload, policy: seq<Policy>)
    requires SentSp(sp, policy)
    ensures sp.Sp?
  {
  }

  lemma {:induction false} SentStep(ps: seq<Payload>, start: nat, policy: seq<Policy>, e: Policy)
    requires Sent(ps, start, policy) && PolicyFits(policy + [e])
    ensures Sent(AddEntry(ps, start, e), start, policy + [e])
  {
    hide SentSp, PolicyFits;
    var k := FindSp(ps, start, e.policyNo, e.protType);
    var r := Opened(ps, start, e);
    if k == |ps| {
      OpenedSent(ps, start, policy, e);
    }
    EntrySent(r, start, policy, e, k);
  }

  lemma {:induction false} EntrySent(r: seq<Payload>, start: nat, policy: seq<Policy>, e: Policy, k: nat)
    requires Sent(r, start, policy) && PolicyFits(policy + [e]) && k == FindSp(r, start, e.policyNo, e.protType) < |r|
    ensures Sent(r[k := WithSpParam(r[k], Param(e.policyType, e.value))], start, policy + [e])
  {
    hide SentSp, PolicyFits;
    var s := r[k := WithSpParam(r[k], Param(e.policyType, e.value))];
    forall j | start <= j < |s|
      ensures SentSp(s[j], policy + [e]) && s[j].Sp? && r[j].Sp? && s[j].policyNo == r[j].policyNo && s[j].protType == r[j].protType
    {
      SpOfSent(r[j], policy);
      if j == k {
        OwnSp(r[k], policy, e);
      } else {
        OtherSp(r[j], policy, e);
      }
    }
    forall f | f in policy + [e]
      ensures FindSp(s, start, f.policyNo, f.protType) < |s|
    {
      FindSpIs(s, start, FindSp(r, start, f.policyNo, f.protType), f.policyNo, f.protType);
    }
  }

  lemma {:induction false} FitsPrefix(policy: seq<Policy>)
    requires PolicyFits(policy) && |policy| > 0
    ensures PolicyFits(policy[..|policy| - 1]) && policy == policy[..|policy| - 1] + [policy[|policy| - 1]]
  {
    var h := policy[..|policy| - 1];
    forall no: byte, prot: byte
      ensures GroupLength(h, no, prot) + 5 < TWO16
    {
      assert GroupLength(policy, no, prot) + 5 < TWO16;
    }
  }

  /** addPolicyToPayload: the new payloads carry exactly the policy. */
  lemma {:induction false} AddPolicySent(ps: seq<Payload>, policy: seq<Policy>)
    requires PolicyFits(policy)
    ensures Sent(AddPolicy(ps, |ps|, policy), |ps|, policy)
  {
    hide PolicyFits, SentSp;
    if |policy| > 0 {
      FitsPrefix(policy);
      AddPolicySent(ps, policy[..|policy| - 1]);
      SentStep(AddPolicy(ps, |ps|, policy[..|policy| - 1]), |ps|, policy[..|policy| - 1], policy[|policy| - 1]);
    }
  }

  lemma {:induction false} SentCarries(ps: seq<Payload>, start: nat, policy: seq<Policy>, e: Policy)
    requires Sent(ps, start, policy)
    ensures InSp(ps[start..], e) <==> e in policy
  {
    if e in policy {
      var k := FindSp(ps, start, e.policyNo, e.protType);
      assert SentSp(ps[k], policy);
      assert Policy(ps[k].policyNo, ps[k].protType, Param(e.policyType, e.value).ptype, Param(e.policyType, e.value).value) == e;
      assert ps[start..][k - start] == ps[k] && Carries(ps[k], e);
    }
    if InSp(ps[start..], e) {
      var k :| 0 <= k < |ps[start..]| && Carries(ps[start..][k], e);
      assert SentSp(ps[start + k], policy);
    }
  }

  lemma {:induction false} SentFits(sp: Payload, policy: seq<Policy>)
    requires SentSp(sp, policy) && PolicyFits(policy)
    ensures WellFormed(sp) && TypeOf(sp) == SP_TYPE
  {
    assert GroupLength(policy, sp.policyNo, sp.protType) + 5 < TWO16;
  }

  lemma {:induction false} EmptySpOk(no: byte, prot: byte)
    ensures WellFormed(Sp(LAST_PAYLOAD, no, prot, 0, []))
  {
    NoParams();
  }

  /** Payloads up to start keep everything but their next fields; the rest are security policies. */
  ghost predicate Extends(ps: seq<Payload>, r: seq<Payload>) {
    |ps| <= |r| && (forall i :: 0 <= i < |ps| ==> SameButNext(ps[i], r[i])) && forall i :: |ps| <= i < |r| ==> r[i].Sp?
  }

  lemma {:induction false} OpenedOk(ps: seq<Payload>, start: nat, e: Policy)
    requires start <= |ps| && AllOk(ps)
    ensures AllOk(Opened(ps, start, e)) && (Open(ps) ==> Open(Opened(ps, start, e)))
    ensures Extends(ps, Opened(ps, start, e))
  {
    hide WellFormed, Linked, SameButNext, TypeOf;
    forall i | 0 <= i < |ps|
      ensures SameButNext(ps[i], ps[i])
    {
      SameItself(ps[i]);
    }
    if FindSp(ps, start, e.policyNo, e.protType) == |ps| {
      var sp := Sp(LAST_PAYLOAD, e.policyNo, e.protType, 0, []);
      EmptySpOk(e.policyNo, e.protType);
      SpTypes(sp, sp);
      if Open(ps) {
        AddPayloadOk(ps, sp);
      }
      if |ps| > 0 {
        SetNextOk(ps[|ps| - 1], SP_TYPE);
        SameNext(ps[|ps| - 1], SP_TYPE);
      }
      var r := Opened(ps, start, e);
      assert r == MikeyList.AddPayload(ps, sp);
      forall i | 0 <= i < |r|
        ensures WellFormed(r[i]) && if i < |ps| then SameButNext(ps[i], r[i]) else r[i].Sp?
      {
        if i < |ps| - 1 {
          assert r[i] == ps[i];
        }
      }
    }
  }

  lemma {:induction false} SameItself(p: Payload)
    ensures SameButNext(p, p)
  {
  }

  lemma {:induction false} SameNext(p: Payload, next: byte)
    ensures SameButNext(p, SetNext(p, next))
  {
  }

  lemma {:induction false} ReplacedExtends(r: seq<Payload>, k: nat, q: Payload, n: nat)
    requires AllOk(r) && n <= k < |r| && r[k].Sp? && q.Sp? && q.next == r[k].next && WellFormed(q)
    ensures AllOk(r[k := q]) && (Open(r) ==> Open(r[k := q]))
    ensures forall ps :: |ps| == n && Extends(ps, r) ==> Extends(ps, r[k := q])
  {
    hide WellFormed, Linked;
    if Open(r) {
      SpTypes(q, r[k]);
      ReplaceOk(r, k, q);
    }
  }

  lemma {:induction false} SpTypes(p: Payload, q: Payload)
    requires p.Sp? && q.Sp?
    ensures TypeOf(p) == TypeOf(q) == SP_TYPE
  {
  }

  lemma {:induction false} ExtendsTwice(a: seq<Payload>, b: seq<Payload>, c: seq<Payload>)
    requires Extends(a, b) && Extends(b, c)
    ensures Extends(a, c)
  {
    forall i | 0 <= i < |c|
      ensures if i < |a| then SameButNext(a[i], c[i]) else c[i].Sp?
    {
      if i < |b| {
        assert SameButNext(b[i], c[i]);
        SameKind(b[i], c[i]);
      }
    }
  }

  lemma {:induction false} SameKind(p: Payload, q: Payload)
    requires SameButNext(p, q)
    ensures TypeOf(p) == TypeOf(q) && (p.Sp? <==> q.Sp?)
  {
    assert TypeOf(SetNext(p, 0)) == TypeOf(p) && TypeOf(SetNext(q, 0)) == TypeOf(q);
  }

  lemma {:induction false} ExtendsItself(ps: seq<Payload>)
    ensures Extends(ps, ps)
  {
  }

  /** addPolicyToPayload keeps the list open for more payloads and changes nothing else. */
  lemma {:induction false} AddPolicyOk(ps: seq<Payload>, policy: seq<Policy>)
    requires AllOk(ps) && PolicyFits(policy)
    ensures var r := AddPolicy(ps, |ps|, policy); AllOk(r) && (Open(ps) ==> Open(r)) && Extends(ps, r)
  {
    hide WellFormed, Linked, PolicyFits, SentSp, Extends, SameButNext;
    if |policy| > 0 {
      var h, e := policy[..|policy| - 1], policy[|policy| - 1];
      FitsPrefix(policy);
      AddPolicyOk(ps, h);
      AddPolicySent(ps, policy);
      var p0 := AddPolicy(ps, |ps|, h);
      var r := Opened(p0, |ps|, e);
      var k := FindSp(p0, |ps|, e.policyNo, e.protType);
      OpenedOk(p0, |ps|, e);
      ExtendsTwice(ps, p0, r);
      var q := WithSpParam(r[k], Param(e.policyType, e.value));
      assert AddPolicy(ps, |ps|, policy)[k] == q;
      SentFits(q, policy);
      ReplacedExtends(r, k, q, |ps|);
    } else {
      ExtendsItself(ps);
    }
  }

  lemma {:induction false} FindSpUnique(ps: seq<Payload>, start: nat, k: nat, no: byte, prot: byte)
    requires start <= k <= |ps| && (k < |ps| ==> IsSpOf(ps[k], no, prot))
    requires forall j :: start <= j < k ==> !IsSpOf(ps[j], no, prot)
    ensures FindSp(ps, start, no, prot) == k
    decreases k - start
  {
    if start < k {
      FindSpUnique(ps, start + 1, k, no, prot);
    }
  }

  lemma {:induction false} KeptSp(p: Payload, q: Payload, no: byte, prot: byte)
    requires SameButNext(p, q)
    ensures IsSpOf(p, no, prot) <==> IsSpOf(q, no, prot)
  {
  }

  /** Where payloads are found after another entry has been added. */
  lemma {:induction false} FindAfter(ps: seq<Payload>, start: nat, e: Policy, no: byte, prot: byte)
    requires start <= |ps| && AllOk(ps)
    ensures var k, r := FindSp(ps, start, no, prot), AddEntry(ps, start, e);
      FindSp(r, start, no, prot) == if k < |ps| || (e.policyNo == no && e.protType == prot) then k else |r|
  {
    hide SameButNext, AllOk;
    var k, r, o := FindSp(ps, start, no, prot), AddEntry(ps, start, e), Opened(ps, start, e);
    OpenedOk(ps, start, e);
    forall j | start <= j < |ps|
      ensures IsSpOf(r[j], no, prot) <==> IsSpOf(ps[j], no, prot)
    {
      KeptSp(ps[j], o[j], no, prot);
    }
    FindSpUnique(r, start, if k < |ps| || (e.policyNo == no && e.protType == prot) then k else |r|, no, prot);
  }

  /** The map from policy number and protocol to the position of the payload. */
  ghost predicate Indexes(existing: map<(byte, byte), nat>, ps: seq<Payload>, start: nat)
    requires start <= |ps|
  {
    forall no: byte, prot: byte ::
      var k := FindSp(ps, start, no, prot);
      ((no, prot) in existing <==> k < |ps|) && ((no, prot) in existing ==> existing[(no, prot)] == k)
  }

  /** One turn of the loop. */
  method AddPolicyEntry(m: MikeyPayloads, ghost start: nat, e: Policy, existing: map<(byte, byte), nat>, ghost policy: seq<Policy>)
      returns (more: map<(byte, byte), nat>)
    requires m.Valid() && start <= |m.payloads| && Sent(m.payloads, start, policy) && PolicyFits(policy + [e]) && Indexes(existing, m.payloads, start)
    modifies m`payloads, m`compiled
    ensures m.payloads == AddEntry(old(m.payloads), start, e) && m.Valid()
    ensures Sent(m.payloads, start, policy + [e]) && Indexes(more, m.payloads, start)
    ensures m.compiled ==> old(m.compiled)
  {
    hide WellFormed, Linked, PolicyFits, SentSp, Sent, SameButNext;
    ghost var before := m.payloads;
    ghost var k0 := FindSp(before, start, e.policyNo, e.protType);
    ghost var o := Opened(before, start, e);
    SentStep(before, start, policy, e);
    OpenedOk(before, start, e);
    forall no: byte, prot: byte
      ensures FindSp(AddEntry(before, start, e), start, no, prot) ==
        if FindSp(before, start, no, prot) < |before| || (e.policyNo == no && e.protType == prot) then FindSp(before, start, no, prot)
        else |AddEntry(before, start, e)|
    {
      FindAfter(before, start, e, no, prot);
    }
    more := existing;
    if (e.policyNo, e.protType) !in existing {
      EmptySpOk(e.policyNo, e.protType);
      more := existing[(e.policyNo, e.protType) := |m.payloads|];
      m.AddPayload(Sp(LAST_PAYLOAD, e.policyNo, e.protType, 0, []));
    }
    var k := more[(e.policyNo, e.protType)];
    var sp := m.payloads[k];
    EntrySentSp(before, start, policy, e);
    var spObject := new MikeyPayloadSP(sp.params, sp.paramLength);
    var error := spObject.AddMikeyPolicyParam(Param(e.policyType, e.value));
    var q := sp.(paramLength := spObject.policyParamLength, params := spObject.param);
    SpTypes(sp, q);
    m.Update(k, q);
  }

  lemma {:induction false} EntrySentSp(ps: seq<Payload>, start: nat, policy: seq<Policy>, e: Policy)
    requires Sent(ps, start, policy) && PolicyFits(policy + [e])
    ensures var r, k := Opened(ps, start, e), FindSp(ps, start, e.policyNo, e.protType);
      r[k].Sp? && WellFormed(WithSpParam(r[k], Param(e.policyType, e.value))) && ParamsOk(r[k].params) &&
      r[k].paramLength == ParamsLength(r[k].params) % TWO16 && !IsLastType(r[k].params, e.policyType) && |e.value| < 256
  {
    hide SentSp, PolicyFits;
    SentStep(ps, start, policy, e);
    var k := FindSp(ps, start, e.policyNo, e.protType);
    EntryNew(ps, start, policy, e);
    var r := AddEntry(ps, start, e);
    assert SentSp(r[k], policy + [e]);
    SentFits(r[k], policy + [e]);
  }

  lemma {:induction false} EntryNew(ps: seq<Payload>, start: nat, policy: seq<Policy>, e: Policy)
    requires Sent(ps, start, policy) && PolicyFits(policy + [e])
    ensures var r, k := Opened(ps, start, e), FindSp(ps, start, e.policyNo, e.protType);
      r[k].Sp? && ParamsOk(r[k].params) && r[k].paramLength == ParamsLength(r[k].params) % TWO16 &&
      !IsLastType(r[k].params, e.policyType) && |e.value| < 256
  {
    hide PolicyFits, ParamsOk, UniqueKeys, GroupLength, ParamsLength;
    var k := FindSp(ps, start, e.policyNo, e.protType);
    if k == |ps| {
      OpenedSent(ps, start, policy, e);
    }
    FitsLast(policy, e);
    GroupStep(policy, e, e.policyNo, e.protType);
    NewType(Opened(ps, start, e)[k], policy, e);
  }

  /** addPolicyToPayload: the payload for each policy number and protocol is found in a map. */
  method AddPolicyToPayload(m: MikeyPayloads, ka: KeyAgreement)
    requires m.Valid() && PolicyFits(ka.policy)
    modifies m`payloads, m`compiled
    ensures m.payloads == AddPolicy(old(m.payloads), |old(m.payloads)|, ka.policy) && m.Valid()
    ensures m.compiled ==> old(m.compiled)
    ensures old(m.Local() && Open(m.payloads)) ==> m.Local() && Open(m.payloads)
  {
    hide WellFormed, Linked, PolicyFits, SentSp, Sent, AddEntry;
    var existing: map<(byte, byte), nat> := map[];
    ghost var before := m.payloads;
    var policy := ka.policy;
    AddPolicyOk(before, policy);
    assert policy[..0] == [];
    NothingSent(before);
    for i := 0 to |policy|
      invariant m.payloads == AddPolicy(before, |before|, policy[..i]) && m.Valid() && (m.compiled ==> old(m.compiled))
      invariant Sent(m.payloads, |before|, policy[..i]) && Indexes(existing, m.payloads, |before|)
    {
      assert policy[..i + 1] == policy[..i] + [policy[i]];
      FitsPrefixes(policy, i + 1);
      existing := AddPolicyEntry(m, |before|, policy[i], existing, policy[..i]);
      assert policy[..i + 1][..i] == policy[..i];
    }
    assert policy[..|policy|] == policy;
  }

  lemma {:induction false} NothingSent(ps: seq<Payload>)
    ensures Sent(ps, |ps|, []) && Indexes(map[], ps, |ps|)
  {
  }

  lemma {:induction false} FitsPrefixes(policy: seq<Policy>, n: nat)
    requires PolicyFits(policy) && n <= |policy|
    ensures PolicyFits(policy[..n])
    decreases |policy|
  {
    hide PolicyFits;
    if n < |policy| {
      FitsPrefix(policy);
      FitsPrefixes(policy[..|policy| - 1], n);
      assert policy[..|policy| - 1][..n] == policy[..n];
    } else {
      assert policy[..n] == policy;
    }
  }

  // ---- receiving ----

  lemma {:induction false} GetParamMember(ps: seq<Param>, p: Param)
    requires DistinctTypes(ps) && p in ps
    ensures GetParam(ps, p.ptype) == Some(p)
  {
    var r := GetParam(ps, p.ptype).value;
    var i :| 0 <= i < |ps| && ps[i] == p;
    var j :| 0 <= j < |ps| && ps[j] == r;
  }

  /** The parameters of types below j, in the order of their types. */
  function Entries(sp: Payload, j: nat): seq<Policy>
    requires sp.Sp? && j <= 256
  {
    if j == 0 then []
    else
      var p := GetParam(sp.params, j - 1);
      Entries(sp, j - 1) + if p.Some? then [Policy(sp.policyNo, sp.protType, j - 1, p.value.value)] else []
  }

  lemma {:induction false} EntriesMembers(sp: Payload, j: nat, e: Policy)
    requires sp.Sp? && j <= 256 && DistinctTypes(sp.params)
    ensures e in Entries(sp, j) <==> Carries(sp, e) && e.policyType < j
  {
    if j > 0 {
      EntriesMembers(sp, j - 1, e);
      var p := GetParam(sp.params, j - 1);
      if Carries(sp, e) {
        GetParamMember(sp.params, Param(e.policyType, e.value));
      }
    }
  }

  lemma {:induction false} EntriesUnique(sp: Payload, j: nat)
    requires sp.Sp? && j <= 256 && DistinctTypes(sp.params)
    ensures UniqueKeys(Entries(sp, j))
  {
    if j > 0 {
      EntriesUnique(sp, j - 1);
      var h := Entries(sp, j - 1);
      forall i | 0 <= i < |h|
        ensures h[i].policyType < j - 1
      {
        EntriesMembers(sp, j - 1, h[i]);
      }
    }
  }

  /** setPolicyParamType for each of the entries. */
  function SetAll(policy: seq<Policy>, entries: seq<Policy>): seq<Policy> {
    if |entries| == 0 then policy else WithParam(SetAll(policy, entries[..|entries| - 1]), entries[|entries| - 1])
  }

  /** How many parameters have a type below j. */
  function CountBelow(ps: seq<Param>, j: nat): nat {
    if |ps| == 0 then 0 else (if ps[0].ptype < j then 1 else 0) + CountBelow(ps[1..], j)
  }

  lemma {:induction false} CountAll(ps: seq<Param>)
    ensures CountBelow(ps, 256) == |ps|
  {
    if |ps| > 0 {
      CountAll(ps[1..]);
    }
  }

  lemma {:induction false} CountNone(ps: seq<Param>)
    ensures CountBelow(ps, 0) == 0
  {
    if |ps| > 0 {
      CountNone(ps[1..]);
    }
  }

  lemma {:induction false} CountNext(ps: seq<Param>, j: byte)
    requires DistinctTypes(ps)
    ensures CountBelow(ps, j + 1) == CountBelow(ps, j) + if GetParam(ps, j).Some? then 1 else 0
  {
    if |ps| > 0 {
      assert DistinctTypes(ps[1..]);
      CountNext(ps[1..], j);
      if ps[0].ptype == j {
        forall p | p in ps[1..]
          ensures p.ptype != j
        {
        }
      }
    }
  }

  lemma {:induction false} CountMonotone(ps: seq<Param>, j: nat, k: nat)
    requires j <= k
    ensures CountBelow(ps, j) <= CountBelow(ps, k) <= |ps|
  {
    if |ps| > 0 {
      CountMonotone(ps[1..], j, k);
    }
  }

  /** Once all parameters are found, no later type has one. */
  lemma {:induction false} NoMoreEntries(sp: Payload, j: nat, k: nat)
    requires sp.Sp? && DistinctTypes(sp.params) && j <= k <= 256 && CountBelow(sp.params, j) == |sp.params|
    ensures Entries(sp, k) == Entries(sp, j)
    decreases k
  {
    if j < k {
      CountMonotone(sp.params, j, k - 1);
      CountNext(sp.params, k - 1);
      CountMonotone(sp.params, k, k);
      NoMoreEntries(sp, j, k - 1);
    }
  }

  /** The inner loop of addPolicyTo_ka tries all types until it has met every parameter. It ends because the
      types of the parameters are distinct. */
  method ScanParameters(sp: Payload, ka: KeyAgreement)
    requires sp.Sp? && DistinctTypes(sp.params)
    modifies ka`policy
    ensures ka.policy == SetAll(old(ka.policy), Entries(sp, 256))
  {
    hide WithParam;
    var i, j := 0, 0;
    CountNone(sp.params);
    CountAll(sp.params);
    while i < |sp.params|
      invariant 0 <= j <= 256 && i == CountBelow(sp.params, j)
      invariant ka.policy == SetAll(old(ka.policy), Entries(sp, j))
      decreases 256 - j
    {
      CountNext(sp.params, j);
      var p := GetParam(sp.params, j);
      j := j + 1;
      if p.Some? {
        assert j - 1 == p.value.ptype;
        ka.SetPolicyParamType(Policy(sp.policyNo, sp.protType, p.value.ptype, p.value.value));
        i := i + 1;
        assert Entries(sp, j)[..|Entries(sp, j)| - 1] == Entries(sp, j - 1);
      } else {
        assert Entries(sp, j) == Entries(sp, j - 1);
      }
    }
    CountMonotone(sp.params, j, j);
    NoMoreEntries(sp, j, 256);
  }

  /** The policy list after all security policy payloads of the message. */
  function Received(ps: seq<Payload>, policy: seq<Policy>): seq<Policy> {
    if |ps| == 0 then policy
    else Received(ps[1..], if ps[0].Sp? then SetAll(policy, Entries(ps[0], 256)) else policy)
  }

  function DropSps(ps: seq<Payload>): seq<Payload> {
    if |ps| == 0 then [] else (if ps[0].Sp? then [] else [ps[0]]) + DropSps(ps[1..])
  }

  lemma {:induction false} RemoveFirstSp(ps: seq<Payload>, policy: seq<Policy>)
    requires AllOk(ps) && Extract(ps, SP_TYPE).Some?
    ensures var sp := Extract(ps, SP_TYPE).value; var r := Remove(ps, SP_TYPE);
      WellFormed(sp) && sp.Sp? && |r| == |ps| - 1 && AllOk(r) && DropSps(r) == DropSps(ps) &&
      Received(ps, policy) == Received(r, SetAll(policy, Entries(sp, 256)))
    decreases |ps|
  {
    hide WellFormed, TypeOf, SetAll, Entries;
    SpKind(ps[0]);
    SpKind(Extract(ps, SP_TYPE).value);
    var r := Remove(ps, SP_TYPE);
    if TypeOf(ps[0]) != SP_TYPE {
      RemoveFirstSp(ps[1..], policy);
      var rest := Remove(ps[1..], SP_TYPE);
      assert r == [ps[0]] + rest;
      assert r[1..] == rest;
    }
  }

  lemma {:induction false} SpKind(p: Payload)
    ensures TypeOf(p) == SP_TYPE <==> p.Sp?
  {
  }

  lemma {:induction false} NoSpLeft(ps: seq<Payload>, policy: seq<Policy>)
    requires Extract(ps, SP_TYPE).None?
    ensures DropSps(ps) == ps && Received(ps, policy) == policy
    decreases |ps|
  {
    hide TypeOf;
    if |ps| > 0 {
      SpKind(ps[0]);
      assert ps[0] in ps;
      assert forall p :: p in ps[1..] ==> p in ps;
      NoSpLeft(ps[1..], policy);
      assert ps == [ps[0]] + ps[1..];
    }
  }

  /** addPolicyTo_ka: takes over the policies of all security policy payloads and removes these. */
  method AddPolicyToKa(m: MikeyPayloads, ka: KeyAgreement)
    requires m.Valid()
    modifies m`payloads, ka`policy
    ensures m.Valid() && m.payloads == DropSps(old(m.payloads))
    ensures ka.policy == Received(old(m.payloads), old(ka.policy))
  {
    hide SetAll, Entries;
    var i := m.ExtractPayload(SP_TYPE);
    while i != None
      invariant m.Valid() && i == Extract(m.payloads, SP_TYPE)
      invariant DropSps(m.payloads) == DropSps(old(m.payloads))
      invariant Received(m.payloads, ka.policy) == Received(old(m.payloads), old(ka.policy))
      invariant m.compiled == old(m.compiled) && m.rawData == old(m.rawData)
      decreases |m.payloads|
    {
      RemoveFirstSp(m.payloads, ka.policy);
      ScanParameters(i.value, ka);
      m.RemovePayload(SP_TYPE);
      i := m.ExtractPayload(SP_TYPE);
    }
    NoSpLeft(m.payloads, ka.policy);
  }

  // ---- what arrives is what was sent ----

  lemma {:induction false} SetAllMembers(policy: seq<Policy>, entries: seq<Policy>, e: Policy)
    requires UniqueKeys(policy) && UniqueKeys(entries)
    requires forall p, q :: p in policy && q in entries ==> !SameKey(p, q)
    ensures UniqueKeys(SetAll(policy, entries))
    ensures e in SetAll(policy, entries) <==> e in policy || e in entries
    decreases |entries|
  {
    if |entries| > 0 {
      var h, x := entries[..|entries| - 1], entries[|entries| - 1];
      assert entries == h + [x];
      assert forall q :: q in h ==> q in entries;
      SetAllMembers(policy, h, e);
      SetAllMembers(policy, h, x);
      var s := SetAll(policy, h);
      forall y | y in s
        ensures !SameKey(y, x)
      {
        SetAllMembers(policy, h, y);
        if y in h {
          var i :| 0 <= i < |h| && h[i] == y;
          assert entries[i] == y;
        } else {
          assert y in policy && x in entries;
        }
      }
      RemovedMembers(s, x.policyNo, x.protType, x.policyType);
      WithParamLookup(s, x, x.policyNo, x.protType, x.policyType);
    }
  }

  /** No two security policy payloads have the same policy number and protocol. */
  ghost predicate DistinctSps(ps: seq<Payload>) {
    forall j, k :: 0 <= j < k < |ps| && ps[j].Sp? && ps[k].Sp? ==> !IsSpOf(ps[j], ps[k].policyNo, ps[k].protType)
  }

  lemma {:induction false} SpEntries(sp: Payload, policy: seq<Policy>, e: Policy)
    requires sp.Sp? && DistinctTypes(sp.params) && UniqueKeys(policy)
    requires forall p, q :: p in policy && Carries(sp, q) ==> !SameKey(p, q)
    ensures var r := SetAll(policy, Entries(sp, 256)); UniqueKeys(r) && (e in r <==> e in policy || Carries(sp, e))
  {
    hide UniqueKeys, DistinctTypes, Carries, Entries;
    var entries := Entries(sp, 256);
    EntriesUnique(sp, 256);
    EntriesMembers(sp, 256, e);
    forall p, q | p in policy && q in entries
      ensures !SameKey(p, q)
    {
      EntriesMembers(sp, 256, q);
    }
    SetAllMembers(policy, entries, e);
  }

  lemma {:induction false} InSpSplit(ps: seq<Payload>, e: Policy)
    requires |ps| > 0
    ensures InSp(ps, e) <==> Carries(ps[0], e) || InSp(ps[1..], e)
  {
    if InSp(ps, e) && !Carries(ps[0], e) {
      var k :| 0 <= k < |ps| && Carries(ps[k], e);
      assert ps[1..][k - 1] == ps[k];
    }
    if InSp(ps[1..], e) {
      var k :| 0 <= k < |ps| - 1 && Carries(ps[1..][k], e);
      assert ps[k + 1] == ps[1..][k];
    }
  }

  lemma {:induction false} CarriesApart(ps: seq<Payload>, p: Policy, q: Policy)
    requires |ps| > 0 && DistinctSps(ps) && Carries(ps[0], p) && InSp(ps[1..], q)
    ensures !SameKey(p, q)
  {
    var k :| 0 <= k < |ps| - 1 && Carries(ps[1..][k], q);
    assert !IsSpOf(ps[0], ps[k + 1].policyNo, ps[k + 1].protType);
  }

  /** The receiver holds what it held before and what the payloads carry. */
  lemma {:induction false} ReceivedMembers(ps: seq<Payload>, policy: seq<Policy>, e: Policy)
    requires UniqueKeys(policy) && DistinctSps(ps) && forall k :: 0 <= k < |ps| && ps[k].Sp? ==> DistinctTypes(ps[k].params)
    requires forall p, q :: p in policy && InSp(ps, q) ==> !SameKey(p, q)
    ensures UniqueKeys(Received(ps, policy))
    ensures e in Received(ps, policy) <==> e in policy || InSp(ps, e)
    decreases |ps|
  {
    hide UniqueKeys, SetAll, Entries, InSp, Carries, DistinctTypes;
    if |ps| > 0 {
      var sp, rest := ps[0], ps[1..];
      InSpSplit(ps, e);
      assert DistinctSps(rest);
      forall k | 0 <= k < |rest| && rest[k].Sp?
        ensures DistinctTypes(rest[k].params)
      {
        assert rest[k] == ps[k + 1];
      }
      var next := if sp.Sp? then SetAll(policy, Entries(sp, 256)) else policy;
      forall q | Carries(sp, q)
        ensures InSp(ps, q)
      {
        InSpSplit(ps, q);
      }
      if sp.Sp? {
        SpEntries(sp, policy, e);
      }
      forall p, q | p in next && InSp(rest, q)
        ensures !SameKey(p, q)
      {
        InSpSplit(ps, q);
        if sp.Sp? {
          SpEntries(sp, policy, p);
          if Carries(sp, p) {
            CarriesApart(ps, p, q);
          }
        }
      }
      NotCarried(sp, e);
      ReceivedMembers(rest, next, e);
    } else {
      NothingIn(e);
    }
  }

  lemma {:induction false} NotCarried(sp: Payload, e: Policy)
    ensures Carries(sp, e) ==> sp.Sp?
  {
  }

  lemma {:induction false} NothingIn(e: Policy)
    ensures !InSp([], e)
  {
  }

  lemma {:induction false} SentDistinct(ps: seq<Payload>, start: nat, policy: seq<Policy>)
    requires Sent(ps, start, policy)
    ensures var s := ps[start..];
      DistinctSps(s) && (forall k :: 0 <= k < |s| ==> s[k].Sp? && DistinctTypes(s[k].params)) && forall e :: InSp(s, e) <==> e in policy
  {
    var s := ps[start..];
    forall k | 0 <= k < |s|
      ensures s[k].Sp? && DistinctTypes(s[k].params)
    {
      assert SentSp(ps[start + k], policy);
    }
    forall e
      ensures InSp(s, e) <==> e in policy
    {
      SentCarries(ps, start, policy, e);
    }
  }

  /** Two policy lists that every lookup answers alike. */
  ghost predicate SamePolicy(a: seq<Policy>, b: seq<Policy>) {
    forall no: byte, prot: byte, t: byte :: Find(a, no, prot, t) == Find(b, no, prot, t)
  }

  lemma {:induction false} SameMembers(a: seq<Policy>, b: seq<Policy>)
    requires UniqueKeys(a) && UniqueKeys(b) && forall e :: e in a <==> e in b
    ensures SamePolicy(a, b)
  {
    hide UniqueKeys;
    forall no: byte, prot: byte, t: byte
      ensures Find(a, no, prot, t) == Find(b, no, prot, t)
    {
      var x, y := Find(a, no, prot, t), Find(b, no, prot, t);
      if x.Some? {
        FindMember(b, x.value);
      } else if y.Some? {
        FindMember(a, y.value);
      }
    }
  }

  lemma {:induction false} ReceivedSkips(a: seq<Payload>, b: seq<Payload>, policy: seq<Policy>)
    requires forall k :: 0 <= k < |a| ==> !a[k].Sp?
    ensures Received(a + b, policy) == Received(b, policy)
    decreases |a|
  {
    if |a| > 0 {
      assert (a + b)[1..] == a[1..] + b;
      ReceivedSkips(a[1..], b, policy);
    } else {
      assert a + b == b;
    }
  }

  lemma {:induction false} ReceivedConcat(a: seq<Payload>, b: seq<Payload>, policy: seq<Policy>)
    ensures Received(a + b, policy) == Received(b, Received(a, policy))
    decreases |a|
  {
    hide SetAll, Entries;
    if |a| > 0 {
      assert (a + b)[1..] == a[1..] + b;
      ReceivedConcat(a[1..], b, if a[0].Sp? then SetAll(policy, Entries(a[0], 256)) else policy);
    } else {
      assert a + b == b;
    }
  }

  /** Policies sent by addPolicyToPayload arrive unchanged at a receiver without policies: every lookup gives the
      same parameter on both sides. */
  lemma {:induction false} PolicyArrives(ps: seq<Payload>, policy: seq<Policy>)
    requires PolicyFits(policy)
    ensures var sps := AddPolicy(ps, |ps|, policy)[|ps|..]; UniqueKeys(Received(sps, [])) && SamePolicy(Received(sps, []), policy)
  {
    hide UniqueKeys, Sent, Received, InSp;
    var r := AddPolicy(ps, |ps|, policy);
    var sps := r[|ps|..];
    AddPolicySent(ps, policy);
    SentDistinct(r, |ps|, policy);
    NoKeys();
    forall e
      ensures UniqueKeys(Received(sps, [])) && (e in Received(sps, []) <==> e in policy)
    {
      ReceivedMembers(sps, [], e);
    }
    ReceivedMembers(sps, [], Policy(0, 0, 0, []));
    SameMembers(Received(sps, []), policy);
  }
}
