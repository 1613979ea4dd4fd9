/** The state of one party's key agreement: KeyAgreement.cxx and MikeyCsIdMap.cxx. */
module KeyAgreement {
  import opened Wrappers
  import opened Bytes
  import opened MikeyCrypto
  import opened MikeyPayload
  import opened KeyDerivation
  import Rfc3830

  // ---- security policies ----

  const PROTO_SRTP := 0
  const PROTO_IPSEC4 := 7

  const SRTP_VALUES: seq<byte> := [1, 16, 1, 20, 14, 0, 0, 1, 1, 0, 1, 10, 0]
  const IPSEC4_VALUES: seq<byte> := [3, 1, 0, 3, 24, 3, 16]

  datatype Policy = Policy(policyNo: byte, protType: byte, policyType: byte, value: seq<byte>)

  predicate Matches(p: Policy, policyNo: byte, protType: byte, policyType: byte) {
    p.policyNo == policyNo && p.protType == protType && p.policyType == policyType
  }

  predicate SameKey(p: Policy, q: Policy) { Matches(p, q.policyNo, q.protType, q.policyType) }

  /** The first entry with the given key. */
  function Find(policy: seq<Policy>, policyNo: byte, protType: byte, policyType: byte): (r: Option<Policy>)
    ensures r.Some? ==> r.value in policy && Matches(r.value, policyNo, protType, policyType)
    ensures r.None? ==> forall p :: p in policy ==> !Matches(p, policyNo, protType, policyType)
  {
    if |policy| == 0 then None
    else if Matches(policy[0], policyNo, protType, policyType) then Some(policy[0])
    else Find(policy[1..], policyNo, protType, policyType)
  }

  ghost predicate UniqueKeys(policy: seq<Policy>) {
    forall i, j :: 0 <= i < j < |policy| ==> !SameKey(policy[i], policy[j])
  }

  /** With unique keys, being found and being in the list are the same. */
  lemma {:induction false} FindMember(policy: seq<Policy>, p: Policy)
    requires UniqueKeys(policy)
    ensures Find(policy, p.policyNo, p.protType, p.policyType) == Some(p) <==> p in policy
  {
    var r := Find(policy, p.policyNo, p.protType, p.policyType);
    if p in policy {
      assert r.Some?;
      var i :| 0 <= i < |policy| && policy[i] == p;
      var j :| 0 <= j < |policy| && policy[j] == r.value;
      assert SameKey(policy[i], policy[j]) && SameKey(policy[j], policy[i]);
    }
  }

  /** list::remove of the entry that was found. */
  function Removed(policy: seq<Policy>, policyNo: byte, protType: byte, policyType: byte): seq<Policy> {
    if |policy| == 0 then []
    else if Matches(policy[0], policyNo, protType, policyType) then policy[1..]
    else [policy[0]] + Removed(policy[1..], policyNo, protType, policyType)
  }

  lemma {:induction false} RemovedAt(policy: seq<Policy>, policyNo: byte, protType: byte, policyType: byte, i: nat)
    requires i <= |policy| && (i < |policy| ==> Matches(policy[i], policyNo, protType, policyType))
    requires forall k :: 0 <= k < i ==> !Matches(policy[k], policyNo, protType, policyType)
    ensures Removed(policy, policyNo, protType, policyType) == if i < |policy| then policy[..i] + policy[i + 1..] else policy
    decreases i
  {
    if i > 0 {
      RemovedAt(policy[1..], policyNo, protType, policyType, i - 1);
      assert policy == [policy[0]] + policy[1..];
    }
  }

  /** setPolicyParamType with a given policy number: adds the parameter, or replaces the one with its key. */
  function WithParam(policy: seq<Policy>, p: Policy): seq<Policy> {
    Removed(policy, p.policyNo, p.protType, p.policyType) + [p]
  }

  lemma {:induction false} ConsUnique(p: Policy, ps: seq<Policy>)
    ensures UniqueKeys([p] + ps) <==> UniqueKeys(ps) && forall q :: q in ps ==> !SameKey(p, q)
  {
    var all := [p] + ps;
    if UniqueKeys(all) {
      forall q | q in ps
        ensures !SameKey(p, q)
      {
        var i :| 0 <= i < |ps| && ps[i] == q;
        assert all[0] == p && all[i + 1] == q;
      }
      forall i, j | 0 <= i < j < |ps|
        ensures !SameKey(ps[i], ps[j])
      {
        assert all[i + 1] == ps[i] && all[j + 1] == ps[j];
      }
    }
  }

  lemma {:induction false} RemovedMembers(policy: seq<Policy>, policyNo: byte, protType: byte, policyType: byte)
    requires UniqueKeys(policy)
    ensures var r := Removed(policy, policyNo, protType, policyType);
      UniqueKeys(r) && forall q :: q in r <==> q in policy && !Matches(q, policyNo, protType, policyType)
  {
    hide UniqueKeys;
    if |policy| > 0 {
      var p, rest := policy[0], policy[1..];
      assert policy == [p] + rest;
      ConsUnique(p, rest);
      RemovedMembers(rest, policyNo, protType, policyType);
      ConsUnique(p, Removed(rest, policyNo, protType, policyType));
    } else {
      NoKeys();
    }
  }

  lemma {:induction false} NoKeys()
    ensures UniqueKeys([])
  {
  }

  /** Setting a parameter changes the lookup of its own key only, and keeps the keys unique. */
  lemma {:induction false} WithParamLookup(policy: seq<Policy>, p: Policy, policyNo: byte, protType: byte, policyType: byte)
    requires UniqueKeys(policy)
    ensures UniqueKeys(WithParam(policy, p))
    ensures Find(WithParam(policy, p), policyNo, protType, policyType) ==
      if Matches(p, policyNo, protType, policyType) then Some(p) else Find(policy, policyNo, protType, policyType)
  {
    var r := Removed(policy, p.policyNo, p.protType, p.policyType);
    RemovedMembers(policy, p.policyNo, p.protType, p.policyType);
    assert forall j :: 0 <= j < |r| ==> r[j] in r;
    var after, before := Find(r + [p], policyNo, protType, policyType), Find(policy, policyNo, protType, policyType);
    assert p in r + [p];
    if after.Some? {
      FindMember(r + [p], after.value);
    }
    if before.Some? {
      FindMember(policy, before.value);
      assert before.value in r ==> before.value in r + [p];
      FindMember(r + [p], before.value);
    }
    FindMember(r + [p], p);
    if after.Some? && !Matches(p, policyNo, protType, policyType) {
      FindMember(policy, after.value);
    }
  }

  ghost predicate Used(policy: seq<Policy>, no: int) { exists i :: 0 <= i < |policy| && policy[i].policyNo == no }

  /** The search of setdefaultPolicy and of setPolicyParamType without a number: whenever the number tried is in
      use, it starts again with the next one. */
  method UnusedNumber(policy: seq<Policy>) returns (policyNo: byte)
    requires exists u: byte :: !Used(policy, u)
    ensures !Used(policy, policyNo)
    ensures forall n :: 0 <= n < policyNo ==> Used(policy, n)
  {
    ghost var u: byte :| !Used(policy, u);
    policyNo := 0;
    var i := 0;
    while i < |policy|
      invariant 0 <= i <= |policy| && policyNo <= u
      invariant forall n :: 0 <= n < policyNo ==> Used(policy, n)
      invariant forall k :: 0 <= k < i ==> policy[k].policyNo != policyNo
      decreases 256 - policyNo, |policy| - i
    {
      if policy[i].policyNo == policyNo {
        i := 0;
        policyNo := policyNo + 1;
      } else {
        i := i + 1;
      }
    }
  }

  /** The default parameters of a protocol under one policy number. */
  function DefaultPolicy(policyNo: byte, protType: byte): (r: seq<Policy>)
    ensures forall p :: p in r ==> p.policyNo == policyNo && p.protType == protType
    ensures UniqueKeys(r)
  {
    if protType == PROTO_SRTP then seq(13, i requires 0 <= i < 13 => Policy(policyNo, protType, i, [SRTP_VALUES[i]]))
    else if protType == PROTO_IPSEC4 then seq(7, i requires 0 <= i < 7 => Policy(policyNo, protType, i, [IPSEC4_VALUES[i]]))
    else []
  }

  lemma {:induction false} AppendUnused(policy: seq<Policy>, more: seq<Policy>, policyNo: byte)
    requires UniqueKeys(policy) && UniqueKeys(more) && !Used(policy, policyNo)
    requires forall p :: p in more ==> p.policyNo == policyNo
    ensures UniqueKeys(policy + more)
  {
    var all := policy + more;
    forall i, j | 0 <= i < j < |all|
      ensures !SameKey(all[i], all[j])
    {
      if i < |policy| && j >= |policy| {
        assert more[j - |policy|] in more;
      }
    }
  }

  // ---- the CS ID map ----

  function SrtpCs(policyNo: byte, ssrc: nat, roc: nat): Cs { Cs(policyNo, [ssrc, roc]) }

  /** 1 + the first position holding the SSRC, or 0; the counter is one byte wide. */
  function CsIdOf(m: seq<Cs>, ssrc: nat): byte
    requires MapOk(MAP_SRTP, m)
  {
    var i := FirstWith(m, ssrc);
    if i == |m| then 0 else (i + 1) % 256
  }

  function FirstWith(m: seq<Cs>, ssrc: nat): (i: nat)
    requires MapOk(MAP_SRTP, m)
    ensures i <= |m| && (forall k :: 0 <= k < i ==> m[k].words[0] != ssrc) && (i < |m| ==> m[i].words[0] == ssrc)
  {
    if |m| == 0 || m[0].words[0] == ssrc then 0 else 1 + FirstWith(m[1..], ssrc)
  }

  method FindCsId(m: seq<Cs>, ssrc: nat) returns (csId: byte)
    requires MapOk(MAP_SRTP, m)
    ensures csId == CsIdOf(m, ssrc)
    ensures |m| <= 255 ==> if csId == 0 then forall k :: 0 <= k < |m| ==> m[k].words[0] != ssrc
            else csId <= |m| && m[csId - 1].words[0] == ssrc && forall k :: 0 <= k < csId - 1 ==> m[k].words[0] != ssrc
  {
    var i, j := 0, 1;
    while i < |m|
      invariant 0 <= i <= |m| && j == (i + 1) % 256
      invariant forall k :: 0 <= k < i ==> m[k].words[0] != ssrc
    {
      if m[i].words[0] == ssrc {
        assert FirstWith(m, ssrc) == i;
        return j;
      }
      i := i + 1;
      j := (j + 1) % 256;
    }
    return 0;
  }

  class KeyAgreement {
    const hmac: Hmac
    var tgk: seq<byte>
    var rand: Option<seq<byte>>
    var csbId: nat
    var csIdMap: Option<seq<Cs>>
    var nCs: byte
    var csIdMapType: byte
    var policy: seq<Policy>

    constructor (hmac: Hmac)
      ensures this.hmac == hmac && tgk == [] && rand == None && csbId == 0 && csIdMap == None && nCs == 0 && policy == []
    {
      this.hmac := hmac;
      tgk, rand, csbId, csIdMap, nCs, policy := [], None, 0, None, 0, [];
    }

    ghost predicate Valid()
      reads this
    {
      csbId < TWO32 && (rand.Some? ==> |rand.value| < 256) && UniqueKeys(policy) &&
      (csIdMap.Some? ==> MapOk(csIdMapType, csIdMap.value))
    }

    /** genTek, genSalt, genEncr and genAuth. */
    ghost function Key(kind: KeyType, csId: byte, n: nat): seq<byte>
      requires |tgk| >= 1
      reads this
    {
      DerivedKey(hmac, kind, csId, csbId, RandBytes(), tgk, n)
    }

    function RandBytes(): seq<byte>
      reads this
    {
      if rand.Some? then rand.value else []
    }

    method Gen(kind: KeyType, csId: byte, length: nat) returns (key: seq<byte>)
      requires |tgk| >= 1 && length >= 1
      ensures key == Key(kind, csId, length)
    {
      key := KeyDeriv(hmac, csId, csbId, RandBytes(), tgk, length, kind);
    }

    /** getPolicyParamType, with the place of the entry. */
    method GetPolicyParamType(policyNo: byte, protType: byte, policyType: byte) returns (r: Option<Policy>, i: nat)
      ensures r == Find(policy, policyNo, protType, policyType) && i <= |policy|
      ensures forall k :: 0 <= k < i ==> !Matches(policy[k], policyNo, protType, policyType)
      ensures if i < |policy| then r == Some(policy[i]) else r == None
    {
      i := 0;
      while i < |policy|
        invariant 0 <= i <= |policy| && Find(policy, policyNo, protType, policyType) == Find(policy[i..], policyNo, protType, policyType)
        invariant forall k :: 0 <= k < i ==> !Matches(policy[k], policyNo, protType, policyType)
      {
        if Matches(policy[i], policyNo, protType, policyType) {
          return Some(policy[i]), i;
        }
        assert policy[i..][1..] == policy[i + 1..];
        i := i + 1;
      }
      return None, i;
    }

    /** setPolicyParamType with a policy number. The entry of that key is taken out of the list if there is one, and the new
        one goes to the end: the lookup of its key gives the new entry then, and every other lookup what it gave before. */
    method SetPolicyParamType(p: Policy)
      modifies `policy
      ensures old(UniqueKeys(policy)) ==> UniqueKeys(policy)
      ensures old(UniqueKeys(policy)) ==> forall no: byte, prot: byte, t: byte ::
        Find(policy, no, prot, t) == if Matches(p, no, prot, t) then Some(p) else Find(old(policy), no, prot, t)
      ensures policy == WithParam(old(policy), p)
    {
      ghost var before := policy;
      var pol, i := GetPolicyParamType(p.policyNo, p.protType, p.policyType);
      RemovedAt(policy, p.policyNo, p.protType, p.policyType, i);
      if pol == None {
        policy := policy + [p];
      } else {
        policy := policy[..i] + policy[i + 1..];
        policy := policy + [p];
      }
      if UniqueKeys(before) {
        forall no: byte, prot: byte, t: byte
          ensures UniqueKeys(policy)
          ensures Find(policy, no, prot, t) == if Matches(p, no, prot, t) then Some(p) else Find(before, no, prot, t)
        {
          WithParamLookup(before, p, no, prot, t);
        }
        WithParamLookup(before, p, 0, 0, 0);
      }
    }

    /** setPolicyParamType without a number: starts a new policy. */
    method NewPolicyParamType(protType: byte, policyType: byte, value: seq<byte>) returns (policyNo: byte)
      requires UniqueKeys(policy) && exists u: byte :: !Used(policy, u)
      modifies `policy
      ensures !Used(old(policy), policyNo) && forall n :: 0 <= n < policyNo ==> Used(old(policy), n)
      ensures policy == old(policy) + [Policy(policyNo, protType, policyType, value)] && UniqueKeys(policy)
    {
      policyNo := UnusedNumber(policy);
      AppendUnused(policy, [Policy(policyNo, protType, policyType, value)], policyNo);
      policy := policy + [Policy(policyNo, protType, policyType, value)];
    }

    method SetDefaultPolicy(protType: byte) returns (policyNo: byte)
      requires UniqueKeys(policy) && exists u: byte :: !Used(policy, u)
      modifies `policy
      ensures !Used(old(policy), policyNo) && forall n :: 0 <= n < policyNo ==> Used(old(policy), n)
      ensures policy == old(policy) + DefaultPolicy(policyNo, protType) && UniqueKeys(policy)
    {
      policyNo := UnusedNumber(policy);
      AppendUnused(policy, DefaultPolicy(policyNo, protType), policyNo);
      ghost var before := policy;
      if protType == PROTO_SRTP {
        for i := 0 to 13
          invariant policy == before + DefaultPolicy(policyNo, protType)[..i]
        {
          policy := policy + [Policy(policyNo, protType, i, [SRTP_VALUES[i]])];
        }
      } else if protType == PROTO_IPSEC4 {
        for i := 0 to 7
          invariant policy == before + DefaultPolicy(policyNo, protType)[..i]
        {
          policy := policy + [Policy(policyNo, protType, i, [IPSEC4_VALUES[i]])];
        }
      }
    }

    /** addSrtpStream; csId 0 appends an entry, any other overwrites one if it exists. */
    method AddSrtpStream(ssrc: nat, roc: nat, policyNo: byte, csId: byte)
      requires ssrc < TWO32 && roc < TWO32
      requires csIdMap.Some? ==> MapOk(MAP_SRTP, csIdMap.value)
      modifies `csIdMap, `nCs
      ensures csIdMap.Some? && MapOk(MAP_SRTP, csIdMap.value)
      ensures var m := if old(csIdMap).Some? then old(csIdMap).value else [];
        if csId == 0 then csIdMap.value == m + [SrtpCs(policyNo, ssrc, roc)] && nCs == (old(nCs) + 1) as int % 256
        else nCs == old(nCs) && csIdMap.value == if csId > |m| then m else m[csId - 1 := SrtpCs(policyNo, ssrc, roc)]
    {
      if csIdMap == None {
        csIdMap := Some([]);
      }
      var m := csIdMap.value;
      if csId == 0 {
        csIdMap := Some(m + [SrtpCs(policyNo, ssrc, roc)]);
        nCs := (nCs + 1) as int % 256;
      } else if csId <= |m| {
        csIdMap := Some(m[csId - 1 := SrtpCs(policyNo, ssrc, roc)]);
      }
    }

    /** setSrtpStreamSsrc; an entry that does not exist is ignored. */
    method SetSrtpStreamSsrc(ssrc: nat, csId: byte)
      requires ssrc < TWO32 && csId >= 1
      requires csIdMap.Some? && MapOk(MAP_SRTP, csIdMap.value)
      modifies `csIdMap
      ensures csIdMap.Some? && MapOk(MAP_SRTP, csIdMap.value)
      ensures var m := old(csIdMap).value;
        csIdMap.value == if csId > |m| then m else m[csId - 1 := SrtpCs(m[csId - 1].policyNo, ssrc, m[csId - 1].words[1])]
    {
      var m := csIdMap.value;
      if csId <= |m| {
        csIdMap := Some(m[csId - 1 := Cs(m[csId - 1].policyNo, m[csId - 1].words[0 := ssrc])]);
        assert m[csId - 1].words[0 := ssrc] == [ssrc, m[csId - 1].words[1]];
      }
    }

    method SetSrtpStreamRoc(roc: nat, csId: byte)
      requires roc < TWO32 && csId >= 1
      requires csIdMap.Some? && MapOk(MAP_SRTP, csIdMap.value)
      modifies `csIdMap
      ensures csIdMap.Some? && MapOk(MAP_SRTP, csIdMap.value)
      ensures var m := old(csIdMap).value;
        csIdMap.value == if csId > |m| then m else m[csId - 1 := SrtpCs(m[csId - 1].policyNo, m[csId - 1].words[0], roc)]
    {
      var m := csIdMap.value;
      if csId <= |m| {
        csIdMap := Some(m[csId - 1 := Cs(m[csId - 1].policyNo, m[csId - 1].words[1 := roc])]);
        assert m[csId - 1].words[1 := roc] == [m[csId - 1].words[0], roc];
      }
    }
  }

  /** The traffic keys are PRF(TGK, label) of the standard for a TGK whose length is not a multiple of 32 bytes. */
  lemma {:induction false} KeyIs(ka: KeyAgreement, kind: KeyType, csId: byte, n: nat, lbl: seq<byte>)
    requires |ka.tgk| >= 1 && |ka.tgk| % 32 != 0
    requires Rfc3830.IsLabel(lbl, RfcConstant(kind), csId, ka.csbId, if ka.rand.Some? then ka.rand.value else [])
    ensures ka.Key(kind, csId, n) == Rfc3830.Prf(ka.hmac, ka.tgk, lbl, n)
  {
    hide Rfc3830.Prf, Rfc3830.IsLabel, RfcConstant;
    DerivedKeyIs(ka.hmac, kind, csId, ka.csbId, ka.RandBytes(), ka.tgk, n, lbl);
  }

  /** The default parameters: 13 for SRTP and 7 for IPsec, of one byte each. */
  lemma {:induction false} DefaultValues(no: byte)
    ensures DefaultPolicy(no, 0) == [
      Policy(no, 0, 0, [1]), Policy(no, 0, 1, [16]), Policy(no, 0, 2, [1]), Policy(no, 0, 3, [20]), Policy(no, 0, 4, [14]), Policy(no, 0, 5, [0]),
      Policy(no, 0, 6, [0]), Policy(no, 0, 7, [1]), Policy(no, 0, 8, [1]), Policy(no, 0, 9, [0]), Policy(no, 0, 10, [1]), Policy(no, 0, 11, [10]),
      Policy(no, 0, 12, [0])]
    ensures DefaultPolicy(no, 7) == [
      Policy(no, 7, 0, [3]), Policy(no, 7, 1, [1]), Policy(no, 7, 2, [0]), Policy(no, 7, 3, [3]), Policy(no, 7, 4, [24]), Policy(no, 7, 5, [3]),
      Policy(no, 7, 6, [16])]
  {
  }
}
