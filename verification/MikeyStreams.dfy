/** Mikey.cxx: how the two parties enter their SRTP streams in the CS ID map. */
module MikeyStreams {
  import opened Wrappers
  import opened Bytes
  import opened MikeyPayload
  import opened KeyAgreement

  const MAX_SENDERS := 127

  ghost predicate SsrcsOk(ssrcs: seq<nat>) { |ssrcs| <= MAX_SENDERS && forall i :: 0 <= i < |ssrcs| ==> ssrcs[i] < TWO32 }

  /** Two entries per initiator stream: its own, and a placeholder for the responder's. */
  function InitiatorMap(ssrcs: seq<nat>): (m: seq<Cs>)
    requires |ssrcs| <= MAX_SENDERS
    ensures |m| == 2 * |ssrcs|
  {
    if |ssrcs| == 0 then []
    else
      var n := |ssrcs| - 1;
      InitiatorMap(ssrcs[..n]) + [SrtpCs(n, ssrcs[n], 0), SrtpCs(n, 0, 0)]
  }

  /** One default SRTP policy per stream, numbered from 0. */
  function DefaultPolicies(n: nat): seq<Policy>
    requires n <= MAX_SENDERS
  {
    if n == 0 then [] else DefaultPolicies(n - 1) + DefaultPolicy(n - 1, PROTO_SRTP)
  }

  /** The responder's j-th SSRC goes to entry 2j, if there is one. */
  function ResponderMap(m: seq<Cs>, ssrcs: seq<nat>): (r: seq<Cs>)
    ensures |r| == |m|
    decreases |ssrcs|
  {
    if |ssrcs| == 0 then m
    else
      var n := |ssrcs|;
      var r := ResponderMap(m, ssrcs[..n - 1]);
      if 2 * n <= |m| then r[2 * n - 1 := SrtpCs(r[2 * n - 1].policyNo, ssrcs[n - 1], 0)] else r
  }

  lemma {:induction false} PoliciesUsed(n: nat, no: int)
    requires n <= MAX_SENDERS
    ensures Used(DefaultPolicies(n), no) <==> 0 <= no < n
  {
    if n > 0 {
      PoliciesUsed(n - 1, no);
      var a, b := DefaultPolicies(n - 1), DefaultPolicy(n - 1, PROTO_SRTP);
      assert forall i :: 0 <= i < |b| ==> b[i] in b;
      if Used(a, no) {
        var i :| 0 <= i < |a| && a[i].policyNo == no;
        assert (a + b)[i].policyNo == no;
      }
      if no == n - 1 {
        assert (a + b)[|a|] == b[0];
      }
      if Used(a + b, no) && no != n - 1 {
        var i :| 0 <= i < |a + b| && (a + b)[i].policyNo == no;
        assert i < |a| ==> a[i].policyNo == no;
      }
    }
  }

  lemma {:induction false} PoliciesUnique(n: nat)
    requires n <= MAX_SENDERS
    ensures UniqueKeys(DefaultPolicies(n))
  {
    if n > 0 {
      PoliciesUnique(n - 1);
      PoliciesUsed(n - 1, n - 1);
      AppendUnused(DefaultPolicies(n - 1), DefaultPolicy(n - 1, PROTO_SRTP), n - 1);
    }
  }

  /** One sender of the initiator: a policy of its own, its entry and the placeholder. */
  method AddSender(ka: KeyAgreement, ssrc: nat, ghost j: nat)
    requires ssrc < TWO32 && j < MAX_SENDERS
    requires ka.policy == DefaultPolicies(j) && ka.nCs == 2 * j && (ka.csIdMap.Some? ==> MapOk(MAP_SRTP, ka.csIdMap.value))
    modifies ka`policy, ka`csIdMap, ka`nCs
    ensures ka.policy == DefaultPolicies(j + 1) && ka.nCs == 2 * j + 2
    ensures ka.csIdMap.Some? && MapOk(MAP_SRTP, ka.csIdMap.value)
    ensures var m := if old(ka.csIdMap).Some? then old(ka.csIdMap).value else [];
      ka.csIdMap.value == m + [SrtpCs(j, ssrc, 0), SrtpCs(j, 0, 0)]
  {
    hide DefaultPolicy, MapOk;
    PoliciesUnique(j);
    PoliciesUsed(j, j);
    var policyNo := ka.SetDefaultPolicy(PROTO_SRTP);
    PoliciesUsed(j, policyNo);
    ka.AddSrtpStream(ssrc, 0, policyNo, 0);
    ka.AddSrtpStream(0, 0, policyNo, 0);
  }

  /** addStreamsToKa of the initiator, on a fresh key agreement. */
  method AddStreamsAsInitiator(ka: KeyAgreement, ssrcs: seq<nat>)
    requires SsrcsOk(ssrcs)
    requires ka.policy == [] && ka.csIdMap == None && ka.nCs == 0
    modifies ka`policy, ka`csIdMap, ka`nCs, ka`csIdMapType
    ensures ka.csIdMapType == MAP_SRTP && ka.nCs == 2 * |ssrcs|
    ensures ka.csIdMap == if ssrcs == [] then None else Some(InitiatorMap(ssrcs))
    ensures ka.policy == DefaultPolicies(|ssrcs|)
    ensures ka.csIdMap.Some? ==> MapOk(MAP_SRTP, ka.csIdMap.value)
  {
    hide MapOk, DefaultPolicies;
    assert DefaultPolicies(0) == [] by { NoPolicies(); }
    ka.csIdMapType := MAP_SRTP;
    for j := 0 to |ssrcs|
      invariant ka.csIdMapType == MAP_SRTP && ka.nCs == 2 * j && ka.policy == DefaultPolicies(j)
      invariant ka.csIdMap == if j == 0 then None else Some(InitiatorMap(ssrcs[..j]))
      invariant ka.csIdMap.Some? ==> MapOk(MAP_SRTP, ka.csIdMap.value)
    {
      AddSender(ka, ssrcs[j], j);
      assert ssrcs[..j + 1][..j] == ssrcs[..j];
    }
    assert ssrcs[..|ssrcs|] == ssrcs;
  }

  lemma {:induction false} NoPolicies()
    ensures DefaultPolicies(0) == []
  {
  }

  /** addStreamsToKa of the responder. */
  method AddStreamsAsResponder(ka: KeyAgreement, ssrcs: seq<nat>)
    requires SsrcsOk(ssrcs)
    requires ka.csIdMap.Some? && MapOk(MAP_SRTP, ka.csIdMap.value)
    modifies ka`csIdMap, ka`csIdMapType
    ensures ka.csIdMapType == MAP_SRTP
    ensures ka.csIdMap == Some(ResponderMap(old(ka.csIdMap).value, ssrcs)) && MapOk(MAP_SRTP, ka.csIdMap.value)
  {
    ghost var m := ka.csIdMap.value;
    ka.csIdMapType := MAP_SRTP;
    for j := 1 to |ssrcs| + 1
      invariant ka.csIdMapType == MAP_SRTP
      invariant ka.csIdMap == Some(ResponderMap(m, ssrcs[..j - 1])) && MapOk(MAP_SRTP, ka.csIdMap.value)
    {
      assert ssrcs[..j][..j - 1] == ssrcs[..j - 1];
      ghost var r := ka.csIdMap.value;
      ka.SetSrtpStreamSsrc(ssrcs[j - 1], 2 * j);
      ka.SetSrtpStreamRoc(0, 2 * j);
      assert 2 * j <= |m| ==> ka.csIdMap.value == r[2 * j - 1 := SrtpCs(r[2 * j - 1].policyNo, ssrcs[j - 1], 0)];
    }
    assert ssrcs[..|ssrcs|] == ssrcs;
  }

  lemma {:induction false} InitiatorEntry(ssrcs: seq<nat>, j: nat)
    requires 1 <= j <= |ssrcs| <= MAX_SENDERS
    ensures InitiatorMap(ssrcs)[2 * j - 2] == SrtpCs(j - 1, ssrcs[j - 1], 0)
    ensures InitiatorMap(ssrcs)[2 * j - 1] == SrtpCs(j - 1, 0, 0)
    decreases |ssrcs|
  {
    if j < |ssrcs| {
      InitiatorEntry(ssrcs[..|ssrcs| - 1], j);
    }
  }

  lemma {:induction false} ResponderEntry(m: seq<Cs>, ssrcs: seq<nat>, i: nat)
    requires i < |m| && 2 * |ssrcs| <= |m|
    ensures ResponderMap(m, ssrcs)[i] ==
      if i % 2 == 1 && i / 2 < |ssrcs| then SrtpCs(m[i].policyNo, ssrcs[i / 2], 0) else m[i]
    decreases |ssrcs|
  {
    if |ssrcs| > 0 {
      ResponderEntry(m, ssrcs[..|ssrcs| - 1], i);
    }
  }

  /** The policy number, and the SSRC with a roll-over counter of zero. */
  ghost predicate IsStream(cs: Cs, policyNo: nat, ssrc: nat) { cs.policyNo as int == policyNo && cs.words == [ssrc, 0] }

  /** The map both parties share in the end: entry 2j - 1 holds the initiator's j-th SSRC, and entry 2j the
      responder's, or 0 if the responder has fewer streams. */
  lemma {:induction false} SharedMap(senders: seq<nat>, receivers: seq<nat>, j: nat)
    requires |receivers| <= |senders| <= MAX_SENDERS && 1 <= j <= |senders|
    ensures var m := ResponderMap(InitiatorMap(senders), receivers);
      |m| == 2 * |senders| && IsStream(m[2 * j - 2], j - 1, senders[j - 1]) &&
      IsStream(m[2 * j - 1], j - 1, if j <= |receivers| then receivers[j - 1] else 0)
  {
    var m := InitiatorMap(senders);
    InitiatorEntry(senders, j);
    ResponderEntry(m, receivers, 2 * j - 2);
    ResponderEntry(m, receivers, 2 * j - 1);
  }
}
