/** When the parsers read past the message, move an iterator past its list, or fail an assertion: conditions on the bytes. */
module MikeyErrors {
  import opened Wrappers
  import opened Bytes
  import opened MikeyPayload
  import opened MikeySp
  import opened MikeyList

  // ---- the header ----

  /** The length check counts nine bytes for each session, but an IPsec map has thirteen. */
  predicate HdrTooFar(d: seq<byte>) {
    |d| >= 10 && d[9] == MAP_IPSEC4 && 10 + 9 * (d[8] as int) <= |d| < 10 + 13 * (d[8] as int)
  }

  // ---- the security policy ----

  /** Where the parameters start, from i up to the declared end j, as far as the message goes. */
  function Starts(d: seq<byte>, i: nat, j: nat): seq<nat>
    decreases |d| - i
  {
    if i >= j then []
    else if ParamEnd(d, i) > |d| then [i]
    else [i] + Starts(d, ParamEnd(d, i), j)
  }

  /** Where the parameter at i ends: its length is its second byte. */
  function ParamEnd(d: seq<byte>, i: nat): (e: nat)
    ensures e >= i + 2
  {
    i + 2 + if i + 2 <= |d| then d[i + 1] else 0
  }

  /** The declared end, computed in 16 bits. */
  function DeclaredEnd(d: seq<byte>): nat
    requires |d| >= 5
  {
    (Number(d[3..5]) + 5) % TWO16
  }

  /** Two parameters in a row have the same type. */
  ghost predicate TypeTwice(d: seq<byte>, st: seq<nat>) {
    exists k :: 0 < k < |st| && st[k - 1] < |d| && st[k] + 2 <= |d| && d[st[k]] == d[st[k - 1]]
  }

  /** The last parameter does not end within the message. */
  predicate Leaves(d: seq<byte>, st: seq<nat>) { |st| > 0 && ParamEnd(d, st[|st| - 1]) > |d| }

  ghost predicate TypeAmong(d: seq<byte>, st: seq<nat>, ptype: byte) {
    exists k :: 0 <= k < |st| && st[k] < |d| && d[st[k]] == ptype
  }

  /** What the parameters take that no later one of the same type replaces. */
  ghost function KeptLength(d: seq<byte>, st: seq<nat>): nat {
    if st == [] then 0
    else
      (if st[0] < |d| && !TypeAmong(d, st[1..], d[st[0]]) then ParamEnd(d, st[0]) - st[0] else 0) + KeptLength(d, st[1..])
  }

  ghost predicate SpTooFar(d: seq<byte>) {
    |d| < 5 || var st := Starts(d, 5, DeclaredEnd(d)); Leaves(d, st) && !TypeTwice(d, st)
  }

  ghost predicate SpPastEnd(d: seq<byte>) { |d| >= 5 && TypeTwice(d, Starts(d, 5, DeclaredEnd(d))) }

  /** The parameters that are kept do not take what is declared. */
  ghost predicate SpMismatch(d: seq<byte>) {
    |d| >= 5 &&
    var st := Starts(d, 5, DeclaredEnd(d));
    !Leaves(d, st) && !TypeTwice(d, st) && 5 + KeptLength(d, st) != DeclaredEnd(d)
  }

  // ---- the reading loop ----

  /** The type of the first start repeats that of the last parameter read. */
  ghost predicate Repeats(d: seq<byte>, st: seq<nat>, ps: seq<Param>) {
    |st| > 0 && st[0] + 2 <= |d| && IsLastType(ps, d[st[0]])
  }

  lemma {:induction false} TypeTwiceTail(d: seq<byte>, i: nat, rest: seq<nat>)
    requires i < |d|
    ensures TypeTwice(d, [i] + rest) <==> (|rest| > 0 && rest[0] + 2 <= |d| && d[rest[0]] == d[i]) || TypeTwice(d, rest)
  {
    var st := [i] + rest;
    if TypeTwice(d, st) {
      var k :| 0 < k < |st| && st[k - 1] < |d| && st[k] + 2 <= |d| && d[st[k]] == d[st[k - 1]];
      assert k > 1 ==> rest[k - 1] == st[k] && rest[k - 2] == st[k - 1];
    }
    if TypeTwice(d, rest) {
      var k :| 0 < k < |rest| && rest[k - 1] < |d| && rest[k] + 2 <= |d| && d[rest[k]] == d[rest[k - 1]];
      assert st[k + 1] == rest[k] && st[k] == rest[k - 1];
    }
    if |rest| > 0 && rest[0] + 2 <= |d| && d[rest[0]] == d[i] {
      assert st[1] == rest[0] && st[0] == i;
    }
  }

  /** The errors of the loop, from index i on. */
  lemma {:induction false} ReadErrors(d: seq<byte>, i: nat, j: nat, ps: seq<Param>)
    requires i <= |d|
    ensures var r, st := ReadParams(d, i, j, ps), Starts(d, i, j);
      var twice := Repeats(d, st, ps) || TypeTwice(d, st);
      (r == Err(PastEnd) <==> twice) && (r == Err(Overrun) <==> Leaves(d, st) && !twice) && (r.Ok? <==> !Leaves(d, st) && !twice)
    decreases |d| - i
  {
    hide AddParam;
    if i < j && ParamEnd(d, i) <= |d| {
      var e := ParamEnd(d, i);
      var p := Param(d[i], d[i + 2..e]);
      ReadErrors(d, e, j, AddParam(ps, p));
      LastAdded(ps, p);
      TypeTwiceTail(d, i, Starts(d, e, j));
    }
  }

  lemma {:induction false} LastAdded(ps: seq<Param>, p: Param)
    ensures forall t: byte :: IsLastType(AddParam(ps, p), t) <==> t == p.ptype
  {
  }

  // ---- what is left of the parameters ----

  /** The length of those of ps that no parameter to come replaces. */
  ghost function KeptOf(ps: seq<Param>, d: seq<byte>, st: seq<nat>): nat {
    if |ps| == 0 then 0
    else
      KeptOf(ps[..|ps| - 1], d, st) + if TypeAmong(d, st, ps[|ps| - 1].ptype) then 0 else SizeOf(ps[|ps| - 1])
  }

  lemma {:induction false} TypeAmongTail(d: seq<byte>, i: nat, rest: seq<nat>, t: byte)
    requires i < |d|
    ensures TypeAmong(d, [i] + rest, t) <==> d[i] == t || TypeAmong(d, rest, t)
  {
    var st := [i] + rest;
    if TypeAmong(d, st, t) {
      var k :| 0 <= k < |st| && st[k] < |d| && d[st[k]] == t;
      assert k > 0 ==> rest[k - 1] == st[k];
    }
    if TypeAmong(d, rest, t) {
      var k :| 0 <= k < |rest| && rest[k] < |d| && d[rest[k]] == t;
      assert st[k + 1] == rest[k];
    }
    if d[i] == t {
      assert st[0] == i;
    }
  }

  lemma {:induction false} KeptWithout(ps: seq<Param>, d: seq<byte>, i: nat, rest: seq<nat>)
    requires i < |d|
    ensures KeptOf(Without(ps, d[i]), d, rest) == KeptOf(ps, d, [i] + rest)
  {
    hide TypeAmong;
    if |ps| > 0 {
      var h, last := ps[..|ps| - 1], ps[|ps| - 1];
      KeptWithout(h, d, i, rest);
      TypeAmongTail(d, i, rest, last.ptype);
      if last.ptype != d[i] {
        assert (Without(h, d[i]) + [last])[..|Without(h, d[i])|] == Without(h, d[i]);
      }
    }
  }

  lemma {:induction false} KeptAppend(ps: seq<Param>, p: Param, d: seq<byte>, st: seq<nat>)
    ensures KeptOf(ps + [p], d, st) == KeptOf(ps, d, st) + if TypeAmong(d, st, p.ptype) then 0 else SizeOf(p)
  {
    assert (ps + [p])[..|ps|] == ps;
  }

  lemma {:induction false} KeptAll(ps: seq<Param>, d: seq<byte>)
    ensures KeptOf(ps, d, []) == ParamsLength(ps)
  {
    if |ps| > 0 {
      KeptAll(ps[..|ps| - 1], d);
    }
  }

  /** The parameters that are read take as much as those on the wire that are kept. */
  lemma {:induction false} ReadLength(d: seq<byte>, i: nat, j: nat, ps: seq<Param>)
    requires i <= |d|
    ensures var r, st := ReadParams(d, i, j, ps), Starts(d, i, j);
      r.Ok? ==> ParamsLength(r.value) == KeptOf(ps, d, st) + KeptLength(d, st)
    decreases |d| - i
  {
    hide TypeAmong, KeptOf, ParamsLength, Without;
    if i >= j {
      KeptAll(ps, d);
    } else if ReadParams(d, i, j, ps).Ok? {
      var e := ParamEnd(d, i);
      var p := Param(d[i], d[i + 2..e]);
      var rest := Starts(d, e, j);
      ReadLength(d, e, j, AddParam(ps, p));
      KeptAppend(Without(ps, d[i]), p, d, rest);
      KeptWithout(ps, d, i, rest);
      assert ([i] + rest)[1..] == rest;
    }
  }

  lemma {:induction false} KeptBound(d: seq<byte>, i: nat, j: nat)
    requires i <= |d| && !Leaves(d, Starts(d, i, j))
    ensures KeptLength(d, Starts(d, i, j)) <= if j > i then j + 256 - i else 0
    decreases |d| - i
  {
    hide TypeAmong;
    if i < j {
      var e := ParamEnd(d, i);
      var rest := Starts(d, e, j);
      assert ([i] + rest)[1..] == rest;
      if |rest| > 0 {
        assert ([i] + rest)[|rest|] == rest[|rest| - 1];
      }
      KeptBound(d, e, j);
    }
  }

  // ---- the exact conditions ----

  /** The three errors of the security policy constructor. */
  lemma {:induction false} SpErrors(d: seq<byte>)
    ensures Decode(SP_TYPE, d) == Err(Overrun) <==> SpTooFar(d)
    ensures Decode(SP_TYPE, d) == Err(PastEnd) <==> SpPastEnd(d)
    ensures Decode(SP_TYPE, d) == Err(AssertionFailed) <==> SpMismatch(d)
  {
    hide ReadParams, Starts, Leaves, TypeTwice, KeptLength, ParamsLength, Number, KeptOf;
    if |d| >= 5 {
      var j := DeclaredEnd(d);
      var st := Starts(d, 5, j);
      ReadErrors(d, 5, j, []);
      if !Leaves(d, st) && !TypeTwice(d, st) {
        ReadLength(d, 5, j, []);
        KeptBound(d, 5, j);
        NothingKept(d, st);
        SumInSixteenBits(KeptLength(d, st), j);
      }
    }
  }

  lemma {:induction false} NothingKept(d: seq<byte>, st: seq<nat>)
    ensures KeptOf([], d, st) == 0
  {
  }

  lemma {:induction false} SumInSixteenBits(kept: nat, j: nat)
    requires j < TWO16 && kept <= if j > 5 then j + 251 else 0
    ensures 5 + kept % TWO16 == j <==> 5 + kept == j
  {
  }

  /** No other payload has these errors, but for the header, and for a message that begins with no payload at all. */
  lemma {:induction false} OtherErrors(payloadType: int, d: seq<byte>)
    ensures payloadType != SP_TYPE ==> (Decode(payloadType, d) == Err(Overrun) <==> payloadType == HDR_TYPE && HdrTooFar(d))
    ensures payloadType != SP_TYPE ==> Decode(payloadType, d) != Err(PastEnd)
    ensures payloadType != SP_TYPE ==> (Decode(payloadType, d) == Err(AssertionFailed) <==> payloadType == LAST_PAYLOAD)
    ensures Decode(payloadType, d) != Err(BadLength)
  {
    hide Number, DecodeMap, ReadParams, ParamsLength;
    if payloadType == SP_TYPE && |d| >= 5 {
      ReadErrors(d, 5, DeclaredEnd(d), []);
    }
  }

  // ---- whole messages ----

  /** The parsing loop, with a payload of type next to come at the start of d, comes to one of type t at the start of rest. */
  ghost predicate Reaches(next: int, d: seq<byte>, t: int, rest: seq<byte>)
    decreases |d|
  {
    |d| > 0 && next != LAST_PAYLOAD &&
    ((next == t && d == rest) ||
     (Decode(next, d).Ok? &&
      assert 2 <= Decode(next, d).value.1 <= |d| by { DecodeSound(next, d); }
      var r := Decode(next, d).value;
      Reaches(r.0.next, d[r.1..], t, rest)))
  }

  /** The same from the first payload on, which is read even if nothing is there. */
  ghost predicate ReachedFrom(first: int, d: seq<byte>, t: int, rest: seq<byte>) {
    (first == t && d == rest) ||
    (Decode(first, d).Ok? &&
     assert 2 <= Decode(first, d).value.1 <= |d| by { DecodeSound(first, d); }
     var r := Decode(first, d).value;
     Reaches(r.0.next, d[r.1..], t, rest))
  }

  /** Type t is not that of a payload, or not to be met again after the first. */
  lemma {:induction false} ReachedType(next: int, d: seq<byte>, t: int, rest: seq<byte>)
    requires Reaches(next, d, t, rest) && 0 <= next
    ensures 0 <= t && t != LAST_PAYLOAD
    decreases |d|
  {
    hide Decode;
    if !(next == t && d == rest) {
      DecodeSound(next, d);
      var r := Decode(next, d).value;
      ReachedType(r.0.next, d[r.1..], t, rest);
    }
  }

  lemma {:induction false} RestFails(next: int, d: seq<byte>, e: Error)
    requires e != BadLength
    ensures ParseRest(next, d) == Err(e) <==> exists t: int, rest: seq<byte> :: Reaches(next, d, t, rest) && Decode(t, rest) == Err(e)
    decreases |d|
  {
    hide Decode;
    if |d| > 0 && next != LAST_PAYLOAD {
      var r := Decode(next, d);
      if r.Ok? {
        DecodeSound(next, d);
        var later := d[r.value.1..];
        RestFails(r.value.0.next, later, e);
        if ParseRest(next, d) == Err(e) {
          var t, rest :| Reaches(r.value.0.next, later, t, rest) && Decode(t, rest) == Err(e);
          assert Reaches(next, d, t, rest);
        }
        if t: int, rest: seq<byte> :| Reaches(next, d, t, rest) && Decode(t, rest) == Err(e) {
          assert Reaches(r.value.0.next, later, t, rest);
        }
      } else {
        assert Reaches(next, d, next, d);
      }
    }
  }

  /** A message fails with an error other than its length exactly if the parser comes to a payload that has it. */
  lemma {:induction false} MessageFails(first: int, d: seq<byte>, e: Error)
    requires e != BadLength
    ensures ParseList(first, d) == Err(e) <==> exists t: int, rest: seq<byte> :: ReachedFrom(first, d, t, rest) && Decode(t, rest) == Err(e)
  {
    hide Decode, Reaches;
    var r := Decode(first, d);
    if r.Ok? {
      DecodeSound(first, d);
      var later := d[r.value.1..];
      RestFails(r.value.0.next, later, e);
      if ParseList(first, d) == Err(e) {
        var t, rest :| Reaches(r.value.0.next, later, t, rest) && Decode(t, rest) == Err(e);
        assert ReachedFrom(first, d, t, rest);
      }
      if t: int, rest: seq<byte> :| ReachedFrom(first, d, t, rest) && Decode(t, rest) == Err(e) {
        assert Reaches(r.value.0.next, later, t, rest);
      }
    } else {
      assert ReachedFrom(first, d, first, d);
    }
  }

  lemma {:induction false} ReachedFirst(first: int, d: seq<byte>, t: int, rest: seq<byte>)
    requires ReachedFrom(first, d, t, rest) && t <= LAST_PAYLOAD
    ensures first == t && d == rest
  {
    hide Decode, Reaches;
    if !(first == t && d == rest) {
      DecodeSound(first, d);
      var r := Decode(first, d).value;
      ReachedType(r.0.next, d[r.1..], t, rest);
    }
  }

  /** Bytes after the end of a message are read exactly if its header is too short for its IPsec map, or the parser comes to
      a security policy that leaves the message. */
  lemma {:induction false} MessageOverruns(first: int, d: seq<byte>)
    ensures ParseList(first, d) == Err(Overrun) <==>
      (first == HDR_TYPE && HdrTooFar(d)) || exists rest: seq<byte> :: ReachedFrom(first, d, SP_TYPE, rest) && SpTooFar(rest)
  {
    hide Decode, ReachedFrom, SpTooFar, ParseList, HdrTooFar;
    MessageFails(first, d, Overrun);
    if ParseList(first, d) == Err(Overrun) {
      var t, rest :| ReachedFrom(first, d, t, rest) && Decode(t, rest) == Err(Overrun);
      OtherErrors(t, rest);
      SpErrors(rest);
      if t != SP_TYPE {
        ReachedFirst(first, d, t, rest);
      }
    }
    if first == HDR_TYPE && HdrTooFar(d) {
      OtherErrors(first, d);
      ReachedAtOnce(first, d);
    }
    if rest: seq<byte> :| ReachedFrom(first, d, SP_TYPE, rest) && SpTooFar(rest) {
      SpErrors(rest);
    }
  }

  lemma {:induction false} ReachedAtOnce(first: int, d: seq<byte>)
    ensures ReachedFrom(first, d, first, d)
  {
  }

  /** The iterator of the parameter list is moved past its end exactly if the parser comes to a security policy with two
      parameters of the same type in a row. */
  lemma {:induction false} MessagePastEnd(first: int, d: seq<byte>)
    ensures ParseList(first, d) == Err(PastEnd) <==> exists rest: seq<byte> :: ReachedFrom(first, d, SP_TYPE, rest) && SpPastEnd(rest)
  {
    hide Decode, ReachedFrom, SpPastEnd, ParseList;
    MessageFails(first, d, PastEnd);
    if ParseList(first, d) == Err(PastEnd) {
      var t, rest :| ReachedFrom(first, d, t, rest) && Decode(t, rest) == Err(PastEnd);
      OtherErrors(t, rest);
      SpErrors(rest);
    }
    if rest: seq<byte> :| ReachedFrom(first, d, SP_TYPE, rest) && SpPastEnd(rest) {
      SpErrors(rest);
    }
  }

  /** An assertion fails exactly if no payload is asked for, or the parser comes to a security policy whose parameters do not
      take what it declares. */
  lemma {:induction false} MessageAsserts(first: int, d: seq<byte>)
    ensures ParseList(first, d) == Err(AssertionFailed) <==>
      first == LAST_PAYLOAD || exists rest: seq<byte> :: ReachedFrom(first, d, SP_TYPE, rest) && SpMismatch(rest)
  {
    hide Decode, ReachedFrom, SpMismatch, ParseList;
    MessageFails(first, d, AssertionFailed);
    if ParseList(first, d) == Err(AssertionFailed) {
      var t, rest :| ReachedFrom(first, d, t, rest) && Decode(t, rest) == Err(AssertionFailed);
      OtherErrors(t, rest);
      SpErrors(rest);
      if t != SP_TYPE {
        ReachedFirst(first, d, t, rest);
      }
    }
    if first == LAST_PAYLOAD {
      OtherErrors(first, d);
      ReachedAtOnce(first, d);
    }
    if rest: seq<byte> :| ReachedFrom(first, d, SP_TYPE, rest) && SpMismatch(rest) {
      SpErrors(rest);
    }
  }

  // ---- messages that fail ----

  /** A header without sessions that announces a security policy. */
  const PolicyHeader: seq<byte> := [1, 0, 10, 0, 0, 0, 0, 0, 0, 0]

  lemma {:induction false} AfterHeader(d: seq<byte>)
    ensures ReachedFrom(HDR_TYPE, PolicyHeader + d, SP_TYPE, d) || |d| == 0
    ensures !HdrTooFar(PolicyHeader + d)
  {
    hide Number;
    var all := PolicyHeader + d;
    assert all[10..] == d;
    assert all[2] == 10 && all[8] == 0 && all[9] == MAP_SRTP;
    assert DecodeHdr(all).Ok? && DecodeHdr(all).value.0.next == 10 && DecodeHdr(all).value.1 == 10;
  }

  lemma {:induction false} OneByteLength(d: seq<byte>, n: byte)
    requires |d| >= 5 && d[3] == 0 && d[4] == n
    ensures DeclaredEnd(d) == n + 5
  {
    var f := d[3..5];
    assert f == [0, n] && f[..1] == [0] && [0 as byte][..0] == [];
    assert Number([0]) == 0;
    assert Number(f) == n;
  }

  /** An IPsec map that is cut off. */
  lemma {:induction false} MapCutOff()
    ensures ParseList(HDR_TYPE, [1, 0, 0, 0, 0, 0, 0, 0, 1, 7, 0, 0, 0, 0, 0, 0, 0, 0, 0]) == Err(Overrun)
  {
    hide ParseList;
    MessageOverruns(HDR_TYPE, [1, 0, 0, 0, 0, 0, 0, 0, 1, 7, 0, 0, 0, 0, 0, 0, 0, 0, 0]);
  }

  /** A security policy that declares one byte more than there is. */
  lemma {:induction false} ParameterCutOff()
    ensures ParseList(HDR_TYPE, PolicyHeader + [0, 0, 0, 0, 3, 1, 0]) == Err(Overrun)
  {
    hide ParseList, ReachedFrom, DeclaredEnd;
    var d: seq<byte> := [0, 0, 0, 0, 3, 1, 0];
    AfterHeader(d);
    OneByteLength(d, 3);
    assert Starts(d, 7, 8) == [7];
    assert Starts(d, 5, 8) == [5, 7];
    MessageOverruns(HDR_TYPE, PolicyHeader + d);
  }

  /** A type twice in a row. */
  lemma {:induction false} TypeRepeated()
    ensures ParseList(HDR_TYPE, PolicyHeader + [0, 0, 0, 0, 4, 1, 0, 1, 0]) == Err(PastEnd)
  {
    hide ParseList, ReachedFrom, DeclaredEnd;
    var d: seq<byte> := [0, 0, 0, 0, 4, 1, 0, 1, 0];
    AfterHeader(d);
    OneByteLength(d, 4);
    assert Starts(d, 9, 9) == [];
    assert Starts(d, 7, 9) == [7];
    var st := Starts(d, 5, 9);
    assert st == [5, 7];
    assert 0 < 1 < |st| && st[1 - 1] < |d| && st[1] + 2 <= |d| && d[st[1]] == d[st[1 - 1]];
    MessagePastEnd(HDR_TYPE, PolicyHeader + d);
  }

  /** A declared length of one byte. */
  lemma {:induction false} LengthTooShort()
    ensures ParseList(HDR_TYPE, PolicyHeader + [0, 0, 0, 0, 1, 1, 0]) == Err(AssertionFailed)
  {
    hide ParseList, ReachedFrom, DeclaredEnd;
    var d: seq<byte> := [0, 0, 0, 0, 1, 1, 0];
    AfterHeader(d);
    OneByteLength(d, 1);
    assert Starts(d, 7, 6) == [];
    var st := Starts(d, 5, 6);
    assert st == [5] && st[1..] == [];
    assert KeptLength(d, []) == 0;
    assert KeptLength(d, st) == 2;
    MessageAsserts(HDR_TYPE, PolicyHeader + d);
  }
}
