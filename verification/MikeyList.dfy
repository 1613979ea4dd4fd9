/** Lists of payloads: links, encoding and parsing of whole messages. */
module MikeyList {
  import opened Wrappers
  import opened Bytes
  import opened MikeyPayload

  ghost predicate AllOk(ps: seq<Payload>) { forall i :: 0 <= i < |ps| ==> WellFormed(ps[i]) }

  /** Each next field names the type of the following payload, and the last one is 0; a signature is last. */
  ghost predicate Linked(ps: seq<Payload>) {
    forall i :: 0 <= i < |ps| ==> LinkOk(ps[i], NextType(ps, i))
  }

  predicate LinkOk(p: Payload, next: int) { p.next == next && (p.Sign? ==> next == LAST_PAYLOAD) }

  function NextType(ps: seq<Payload>, i: nat): int
    requires i < |ps|
  {
    if i + 1 < |ps| then TypeOf(ps[i + 1]) else LAST_PAYLOAD
  }

  function FirstType(ps: seq<Payload>): int { if |ps| > 0 then TypeOf(ps[0]) else LAST_PAYLOAD }

  function EncodeAll(ps: seq<Payload>): seq<byte> {
    if |ps| == 0 then [] else EncodeAll(ps[..|ps| - 1]) + Encode(ps[|ps| - 1])
  }

  /** rawMessageLength() */
  function TotalLength(ps: seq<Payload>): nat {
    if |ps| == 0 then 0 else TotalLength(ps[..|ps| - 1]) + Length(ps[|ps| - 1])
  }

  lemma {:induction false} EncodeAllStep(ps: seq<Payload>, j: nat)
    requires j < |ps|
    ensures EncodeAll(ps[..j + 1]) == EncodeAll(ps[..j]) + Encode(ps[j])
    ensures TotalLength(ps[..j + 1]) == TotalLength(ps[..j]) + Length(ps[j])
  {
    assert ps[..j + 1][..j] == ps[..j];
  }

  lemma {:induction false} EncodeAllLength(ps: seq<Payload>)
    requires AllOk(ps)
    ensures |EncodeAll(ps)| == TotalLength(ps)
  {
    hide WellFormed, Length, Encode;
    if |ps| > 0 {
      EncodeAllLength(ps[..|ps| - 1]);
      EncodeLength(ps[|ps| - 1]);
    }
  }

  lemma {:induction false} EncodeAllSnoc(a: seq<Payload>, p: Payload)
    ensures EncodeAll(a + [p]) == EncodeAll(a) + Encode(p)
    ensures TotalLength(a + [p]) == TotalLength(a) + Length(p)
  {
    assert (a + [p])[..|a|] == a;
  }

  lemma {:induction false} SplitLast<T>(a: seq<T>, b: seq<T>)
    requires |b| > 0
    ensures a + b == (a + b[..|b| - 1]) + [b[|b| - 1]] && b == b[..|b| - 1] + [b[|b| - 1]]
  {
  }

  lemma {:induction false} EncodeAllConcat(a: seq<Payload>, b: seq<Payload>)
    ensures EncodeAll(a + b) == EncodeAll(a) + EncodeAll(b)
    ensures TotalLength(a + b) == TotalLength(a) + TotalLength(b)
    decreases |b|
  {
    if |b| == 0 {
      assert a + b == a;
    } else {
      hide Encode, Length, EncodeAll, TotalLength;
      var n := |b| - 1;
      EncodeAllConcat(a, b[..n]);
      SplitLast(a, b);
      EncodeAllSnoc(a + b[..n], b[n]);
      EncodeAllSnoc(b[..n], b[n]);
      Regroup(EncodeAll(a), EncodeAll(b[..n]), Encode(b[n]));
    }
  }

  lemma {:induction false} EncodeOne(p: Payload)
    ensures EncodeAll([p]) == Encode(p) && TotalLength([p]) == Length(p)
  {
    assert [p][..0] == [];
    assert EncodeAll([]) == [] && TotalLength([]) == 0;
  }

  // ---- parsing ----

  function Prepend(p: Payload, r: Result<seq<Payload>, Error>): Result<seq<Payload>, Error> {
    if r.Err? then r else Ok([p] + r.value)
  }

  /** The parsing loop on the rest of a message, when a payload of the given type is to come. */
  function ParseRest(next: int, data: seq<byte>): Result<seq<Payload>, Error>
    decreases |data|
  {
    if |data| == 0 || next == LAST_PAYLOAD then
      if |data| == 0 && next == LAST_PAYLOAD then Ok([]) else Err(BadLength)
    else
      var r := Decode(next, data);
      if r.Err? then Err(r.error)
      else
        DecodeSound(next, data);
        Prepend(r.value.0, ParseRest(r.value.0.next, data[r.value.1..]))
  }

  /** MikeyPayloads::parse: the first payload is read even from an empty message. */
  function ParseList(first: int, data: seq<byte>): Result<seq<Payload>, Error> {
    var r := Decode(first, data);
    if r.Err? then Err(r.error)
    else
      DecodeSound(first, data);
      Prepend(r.value.0, ParseRest(r.value.0.next, data[r.value.1..]))
  }

  lemma {:induction false} LinkedTail(ps: seq<Payload>)
    requires |ps| > 0 && Linked(ps) && AllOk(ps)
    ensures Linked(ps[1..]) && AllOk(ps[1..]) && LinkOk(ps[0], NextType(ps, 0))
  {
    hide WellFormed;
    forall i | 0 <= i < |ps| - 1
      ensures LinkOk(ps[1..][i], NextType(ps[1..], i)) && WellFormed(ps[1..][i])
    {
      assert ps[1..][i] == ps[i + 1];
    }
  }

  lemma {:induction false} TypeRange(p: Payload)
    ensures TypeOf(p) == HDR_TYPE || LAST_PAYLOAD < TypeOf(p) < 256
  {
  }

  lemma {:induction false} ParseRestRoundTrip(ps: seq<Payload>)
    requires Linked(ps) && AllOk(ps)
    ensures ParseRest(FirstType(ps), EncodeAll(ps)) == Ok(ps)
    decreases |ps|
  {
    hide Encode, Decode, WellFormed, TypeOf, Length;
    if |ps| > 0 {
      var p, rest := ps[0], ps[1..];
      LinkedTail(ps);
      ParseRestRoundTrip(rest);
      assert ps == [p] + rest;
      EncodeAllConcat([p], rest);
      EncodeOne(p);
      PayloadRoundTrip(p, EncodeAll(rest));
      EncodeLength(p);
      TypeRange(p);
      assert (Encode(p) + EncodeAll(rest))[|Encode(p)|..] == EncodeAll(rest);
    }
  }

  /** Parsing the bytes of a well-formed, correctly linked list gives the list back and consumes all bytes. */
  lemma {:induction false} MessageRoundTrip(ps: seq<Payload>)
    requires |ps| > 0 && Linked(ps) && AllOk(ps)
    ensures ParseList(TypeOf(ps[0]), EncodeAll(ps)) == Ok(ps)
  {
    hide Encode, Decode, WellFormed, TypeOf, Length;
    ParseRestRoundTrip(ps);
    EncodeAllConcat([ps[0]], ps[1..]);
    assert ps == [ps[0]] + ps[1..];
    EncodeOne(ps[0]);
    EncodeLength(ps[0]);
    TypeRange(ps[0]);
  }

  lemma {:induction false} ConsOk(p: Payload, rest: seq<Payload>)
    requires WellFormed(p) && AllOk(rest) && Linked(rest) && LinkOk(p, FirstType(rest))
    ensures AllOk([p] + rest) && Linked([p] + rest)
    ensures TotalLength([p] + rest) == Length(p) + TotalLength(rest)
  {
    hide WellFormed, TypeOf, Length, EncodeAll, TotalLength;
    EncodeAllConcat([p], rest);
    EncodeOne(p);
    var all := [p] + rest;
    assert forall i :: 0 < i < |all| ==> all[i] == rest[i - 1];
    forall i | 0 <= i < |all|
      ensures LinkOk(all[i], NextType(all, i)) && WellFormed(all[i])
    {
      if i > 0 {
        assert LinkOk(rest[i - 1], NextType(rest, i - 1));
      }
    }
  }

  lemma {:induction false} ParseRestSound(next: int, data: seq<byte>)
    ensures var r := ParseRest(next, data);
      r.Ok? ==> AllOk(r.value) && Linked(r.value) && TotalLength(r.value) == |data| && next == FirstType(r.value)
    decreases |data|
  {
    hide Encode, Decode, WellFormed, TypeOf, Length;
    if |data| > 0 && next != LAST_PAYLOAD && Decode(next, data).Ok? {
      var d := Decode(next, data).value;
      DecodeSound(next, data);
      ParseRestSound(d.0.next, data[d.1..]);
      var rest := ParseRest(d.0.next, data[d.1..]);
      if rest.Ok? {
        ConsOk(d.0, rest.value);
      }
    } else {
      assert TotalLength([]) == 0;
    }
  }

  /** Whatever message is accepted: its payloads are well formed and correctly linked, and their lengths add up to the
      length of the message. */
  lemma {:induction false} ParseSound(first: int, data: seq<byte>)
    ensures var r := ParseList(first, data);
      r.Ok? ==> |r.value| > 0 && TypeOf(r.value[0]) == first && AllOk(r.value) && Linked(r.value) && TotalLength(r.value) == |data|
  {
    hide Encode, Decode, WellFormed, TypeOf, Length;
    if Decode(first, data).Ok? {
      var d := Decode(first, data).value;
      DecodeSound(first, data);
      ParseRestSound(d.0.next, data[d.1..]);
      var rest := ParseRest(d.0.next, data[d.1..]);
      if rest.Ok? {
        ConsOk(d.0, rest.value);
      }
    }
  }

  // ---- building lists ----

  /** addPayload: the previous payload learns the type of the new one. */
  function AddPayload(ps: seq<Payload>, p: Payload): (r: seq<Payload>)
    ensures |r| == |ps| + 1 && r[|ps|] == p
  {
    if TypeOf(p) == HDR_TYPE || |ps| == 0 then ps + [p]
    else
      var n := |ps| - 1;
      ps[..n] + [SetNext(ps[n], TypeOf(p))] + [p]
  }

  /** A list that may grow: every payload but a signature may be followed by others. */
  ghost predicate Open(ps: seq<Payload>) {
    AllOk(ps) && Linked(ps) && (|ps| > 0 ==> !ps[|ps| - 1].Sign?)
  }

  lemma {:induction false} SetNextOk(p: Payload, next: byte)
    ensures TypeOf(SetNext(p, next)) == TypeOf(p) && Length(SetNext(p, next)) == Length(p)
    ensures WellFormed(p) ==> WellFormed(SetNext(p, next))
    ensures SetNext(p, next).next == next && (SetNext(p, next).Sign? <==> p.Sign?)
  {
  }

  lemma {:induction false} LastReplaced(ps: seq<Payload>, q: Payload, p: Payload)
    requires |ps| > 0 && AllOk(ps) && Linked(ps) && WellFormed(q) && WellFormed(p)
    requires TypeOf(q) == TypeOf(ps[|ps| - 1]) && q.next == TypeOf(p) && !q.Sign? && p.next == LAST_PAYLOAD
    ensures var r := ps[..|ps| - 1] + [q] + [p]; AllOk(r) && Linked(r)
  {
    hide WellFormed, TypeOf, Length;
    var n := |ps| - 1;
    var r := ps[..n] + [q] + [p];
    forall i | 0 <= i < |r|
      ensures LinkOk(r[i], NextType(r, i)) && WellFormed(r[i])
    {
      if i < n {
        assert r[i] == ps[i] && LinkOk(ps[i], NextType(ps, i));
      }
    }
  }

  /** Adding a payload keeps the links right. */
  lemma {:induction false} AddPayloadOk(ps: seq<Payload>, p: Payload)
    requires Open(ps) && WellFormed(p) && p.next == LAST_PAYLOAD
    requires TypeOf(p) != HDR_TYPE || |ps| == 0
    ensures AllOk(AddPayload(ps, p)) && Linked(AddPayload(ps, p))
    ensures TotalLength(AddPayload(ps, p)) == TotalLength(ps) + Length(p)
    ensures |ps| > 0 ==> TypeOf(AddPayload(ps, p)[0]) == TypeOf(ps[0])
  {
    hide WellFormed, TypeOf, Length, SetNext, TotalLength, EncodeAll;
    TypeRange(p);
    EncodeOne(p);
    EncodeAllConcat([], [p]);
    if |ps| > 0 {
      var n := |ps| - 1;
      var q := SetNext(ps[n], TypeOf(p));
      SetNextOk(ps[n], TypeOf(p));
      LastReplaced(ps, q, p);
      EncodeAllConcat(ps[..n] + [q], [p]);
      EncodeAllConcat(ps[..n], [q]);
      EncodeAllConcat(ps[..n], [ps[n]]);
      assert ps == ps[..n] + [ps[n]];
      EncodeOne(q);
      EncodeOne(ps[n]);
    } else {
      assert AddPayload(ps, p) == [p];
    }
  }

  lemma {:induction false} SplitAt<T>(s: seq<T>, k: nat, q: T)
    requires k < |s|
    ensures s == s[..k] + ([s[k]] + s[k + 1..]) && s[k := q] == s[..k] + ([q] + s[k + 1..])
  {
  }

  /** setMac, setSigData and addMikeyPolicyParam: payload k is replaced by one of the same type and successor. */
  lemma {:induction false} ReplaceOk(ps: seq<Payload>, k: nat, q: Payload)
    requires AllOk(ps) && Linked(ps) && k < |ps|
    requires WellFormed(q) && TypeOf(q) == TypeOf(ps[k]) && q.next == ps[k].next && (q.Sign? <==> ps[k].Sign?)
    ensures AllOk(ps[k := q]) && Linked(ps[k := q])
    ensures TotalLength(ps[k := q]) == TotalLength(ps) - Length(ps[k]) + Length(q)
  {
    hide WellFormed, TypeOf, Length, EncodeAll, TotalLength;
    var r := ps[k := q];
    forall i | 0 <= i < |r|
      ensures LinkOk(r[i], NextType(r, i)) && WellFormed(r[i])
    {
      assert LinkOk(ps[i], NextType(ps, i));
    }
    SplitAt(ps, k, q);
    EncodeAllConcat(ps[..k], [ps[k]] + ps[k + 1..]);
    EncodeAllConcat(ps[..k], [q] + ps[k + 1..]);
    EncodeAllConcat([ps[k]], ps[k + 1..]);
    EncodeAllConcat([q], ps[k + 1..]);
    EncodeOne(ps[k]);
    EncodeOne(q);
  }

  // ---- looking payloads up ----

  /** extractPayload */
  function Extract(ps: seq<Payload>, payloadType: int): (r: Option<Payload>)
    ensures r.Some? ==> r.value in ps && TypeOf(r.value) == payloadType
    ensures r.None? <==> forall p :: p in ps ==> TypeOf(p) != payloadType
  {
    if |ps| == 0 then None
    else if TypeOf(ps[0]) == payloadType then Some(ps[0])
    else Extract(ps[1..], payloadType)
  }

  /** remove of the payload that extractPayload found. */
  function Remove(ps: seq<Payload>, payloadType: int): (r: seq<Payload>)
    ensures |r| <= |ps|
  {
    if |ps| == 0 then []
    else if TypeOf(ps[0]) == payloadType then ps[1..]
    else [ps[0]] + Remove(ps[1..], payloadType)
  }

  // ---- any way of building a message ----

  /** addPayload, or a later change (setMac, setSigData, addMikeyPolicyParam) to a payload already in the list. */
  datatype BuildStep = Added(p: Payload) | Replaced(k: nat, q: Payload)

  ghost predicate Possible(ps: seq<Payload>, step: BuildStep) {
    match step
    case Added(p) => Open(ps) && WellFormed(p) && p.next == LAST_PAYLOAD && (TypeOf(p) != HDR_TYPE <==> |ps| > 0)
    case Replaced(k, q) =>
      k < |ps| && WellFormed(q) && TypeOf(q) == TypeOf(ps[k]) && q.next == ps[k].next && (q.Sign? <==> ps[k].Sign?)
  }

  function Built(ps: seq<Payload>, step: BuildStep): seq<Payload> {
    match step
    case Added(p) => AddPayload(ps, p)
    case Replaced(k, q) => if k < |ps| then ps[k := q] else ps
  }

  /** The list after some steps from nothing. */
  function BuildAll(steps: seq<BuildStep>): seq<Payload> {
    if |steps| == 0 then [] else Built(BuildAll(steps[..|steps| - 1]), steps[|steps| - 1])
  }

  ghost predicate AllPossible(steps: seq<BuildStep>) {
    forall k :: 0 <= k < |steps| ==> Possible(BuildAll(steps[..k]), steps[k])
  }

  /** After any sequence of additions and changes every next field names the successor's type and the last is 0, and
      the bytes of the list parse back to it. */
  lemma {:induction false} EveryBuild(steps: seq<BuildStep>)
    requires AllPossible(steps)
    ensures var ps := BuildAll(steps);
      AllOk(ps) && Linked(ps) && (|ps| > 0 ==> TypeOf(ps[0]) == HDR_TYPE && ParseList(HDR_TYPE, EncodeAll(ps)) == Ok(ps))
    decreases |steps|
  {
    hide WellFormed, TypeOf, EncodeAll, TotalLength, Length, ParseList, Decode;
    if |steps| > 0 {
      var h, step := steps[..|steps| - 1], steps[|steps| - 1];
      forall k | 0 <= k < |h|
        ensures Possible(BuildAll(h[..k]), h[k])
      {
        assert h[..k] == steps[..k];
      }
      EveryBuild(h);
      var before := BuildAll(h);
      assert Possible(before, step);
      match step {
        case Added(p) => AddPayloadOk(before, p);
        case Replaced(k, q) => ReplaceOk(before, k, q);
      }
      MessageRoundTrip(BuildAll(steps));
    }
  }
}
