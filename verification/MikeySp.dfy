/** MikeyPayloadSP.cxx: the parameter list of a security policy payload, with its running length. */
module MikeySp {
  import opened Wrappers
  import opened Bytes
  import opened MikeyPayload

  /** getParameterType */
  function GetParam(ps: seq<Param>, ptype: byte): (r: Option<Param>)
    ensures r.Some? ==> r.value in ps && r.value.ptype == ptype
    ensures r.None? ==> forall p :: p in ps ==> p.ptype != ptype
  {
    if |ps| == 0 then None else if ps[0].ptype == ptype then Some(ps[0]) else GetParam(ps[1..], ptype)
  }

  lemma {:induction false} ParamsLengthConcat(a: seq<Param>, b: seq<Param>)
    ensures ParamsLength(a + b) == ParamsLength(a) + ParamsLength(b)
    decreases |b|
  {
    if b == [] {
      assert a + b == a;
    } else {
      assert (a + b)[..|a + b| - 1] == a + b[..|b| - 1];
      ParamsLengthConcat(a, b[..|b| - 1]);
    }
  }

  /** What one parameter takes. */
  function SizeOf(p: Param): nat { 2 + |p.value| }

  lemma {:induction false} OneParam(p: Param)
    ensures ParamsLength([p]) == SizeOf(p)
  {
    assert [p][..0] == [];
  }

  /** With distinct types, one parameter at most is taken out. */
  lemma {:induction false} WithoutOne(ps: seq<Param>, m: nat)
    requires DistinctTypes(ps) && m < |ps|
    ensures Without(ps, ps[m].ptype) == ps[..m] + ps[m + 1..]
    ensures ParamsLength(ps) == ParamsLength(ps[..m] + ps[m + 1..]) + SizeOf(ps[m])
    decreases |ps|
  {
    hide ParamsLength;
    var n := |ps| - 1;
    ParamsLengthConcat(ps[..m] + [ps[m]], ps[m + 1..]);
    ParamsLengthConcat(ps[..m], [ps[m]]);
    ParamsLengthConcat(ps[..m], ps[m + 1..]);
    OneParam(ps[m]);
    assert ps == ps[..m] + [ps[m]] + ps[m + 1..];
    if m == n {
      WithoutAbsent(ps[..n], ps[m].ptype);
      assert ps[..m] + ps[m + 1..] == ps[..m];
    } else {
      WithoutOne(ps[..n], m);
      assert ps[..n][..m] == ps[..m] && ps[..n][m + 1..] + [ps[n]] == ps[m + 1..];
    }
  }

  lemma {:induction false} MinusMod(whole: nat, part: nat)
    requires part <= whole
    ensures ((whole % TWO16) as int - part) % TWO16 == (whole - part) % TWO16
  {
    var q := whole / TWO16;
    assert whole == q * TWO16 + whole % TWO16;
  }

  lemma {:induction false} TakenOut(ps: seq<Param>, m: nat, total: nat)
    requires ParamsOk(ps) && m < |ps| && total == ParamsLength(ps) % TWO16
    ensures ParamsOk(Without(ps, ps[m].ptype))
    ensures (total as int - |ps[m].value| - 2) % TWO16 == ParamsLength(Without(ps, ps[m].ptype)) % TWO16
  {
    hide Without, ParamsLength;
    WithoutOk(ps, ps[m].ptype);
    WithoutOne(ps, m);
    MinusMod(ParamsLength(ps), SizeOf(ps[m]));
  }

  class MikeyPayloadSP {
    var param: seq<Param>
    var policyParamLength: nat

    /** The types are distinct, and the running length is the sum over the parameters, in 16 bits. */
    ghost predicate Valid()
      reads this
    {
      ParamsOk(param) && policyParamLength == ParamsLength(param) % TWO16
    }

    constructor (param: seq<Param>, policyParamLength: nat)
      ensures this.param == param && this.policyParamLength == policyParamLength
    {
      this.param, this.policyParamLength := param, policyParamLength;
    }

    method GetParameterType(ptype: byte) returns (r: Option<Param>)
      ensures r == GetParam(param, ptype)
    {
      for i := 0 to |param|
        invariant GetParam(param, ptype) == GetParam(param[i..], ptype)
      {
        if param[i].ptype == ptype {
          return Some(param[i]);
        }
        assert param[i..][1..] == param[i + 1..];
      }
      return None;
    }

    /** deleteMikeyPolicyParam: erase yields the place after the parameter, and the loop then moves on from there. When
        the parameter was the last one that place is the end, and the move goes past it. */
    method DeleteMikeyPolicyParam(ptype: byte) returns (pastEnd: bool)
      requires Valid()
      modifies this
      ensures pastEnd <==> IsLastType(old(param), ptype)
      ensures Valid() && param == Without(old(param), ptype)
    {
      hide ParamsLength, Without;
      ghost var before, m := param, -1;
      var i := 0;
      while i < |param|
        invariant 0 <= i <= |param| && before == old(param) && Valid()
        invariant m == -1 ==> param == before && forall k :: 0 <= k < i ==> before[k].ptype != ptype
        invariant m != -1 ==> 0 <= m < |before| - 1 && before[m].ptype == ptype && param == Without(before, ptype)
        decreases |param| - i
      {
        if param[i].ptype == ptype {
          NotTwice(before, m, ptype);
          m := i;
          TakenOut(before, i, policyParamLength);
          WithoutOne(before, i);
          policyParamLength := (policyParamLength as int - |param[i].value| - 2) % TWO16;
          param := param[..i] + param[i + 1..];
          if i == |param| {
            return true;
          }
        }
        i := i + 1;
      }
      if m == -1 {
        WithoutAbsent(before, ptype);
      } else {
        NotBoth(before, m);
      }
      return false;
    }

    /** addMikeyPolicyParam */
    method AddMikeyPolicyParam(p: Param) returns (error: Option<Error>)
      requires Valid() && |p.value| < 256
      modifies this
      ensures Valid()
      ensures if IsLastType(old(param), p.ptype) then error == Some(PastEnd) else error == None && param == AddParam(old(param), p)
    {
      hide ParamsOk, ParamsLength, Without;
      ghost var before := param;
      var known := GetParameterType(p.ptype);
      if known != None {
        var pastEnd := DeleteMikeyPolicyParam(p.ptype);
        if pastEnd {
          return Some(PastEnd);
        }
      } else {
        WithoutAbsent(param, p.ptype);
      }
      AddParamOk(before, p);
      ParamsLengthConcat(param, [p]);
      OneParam(p);
      param := param + [p];
      policyParamLength := (policyParamLength + |p.value| + 2) % TWO16;
      return None;
    }
  }

  lemma {:induction false} NotBoth(ps: seq<Param>, m: nat)
    requires DistinctTypes(ps) && m < |ps| - 1
    ensures !IsLastType(ps, ps[m].ptype)
  {
  }

  lemma {:induction false} NotTwice(ps: seq<Param>, m: int, ptype: byte)
    requires m != -1 ==> 0 <= m < |ps|
    ensures m != -1 ==> forall p :: p in Without(ps, ptype) ==> p.ptype != ptype
  {
    NoneLeft(ps, ptype);
  }

  lemma {:induction false} NoneLeft(ps: seq<Param>, ptype: byte)
    ensures forall p :: p in Without(ps, ptype) ==> p.ptype != ptype
  {
    if |ps| > 0 {
      NoneLeft(ps[..|ps| - 1], ptype);
    }
  }

  /** The loop that reads the parameters of a security policy, and its last assertion. */
  method ReadParameters(data: seq<byte>, j: nat) returns (r: Result<seq<Param>, Error>)
    requires |data| >= 5
    ensures var ps := ReadParams(data, 5, j, []);
      r == if ps.Ok? && 5 + ParamsLength(ps.value) % TWO16 != j then Err(AssertionFailed) else ps
  {
    hide AddParam, ParamsOk, ParamsLength;
    NoParams();
    var sp := new MikeyPayloadSP([], 0);
    var i := 5;
    while i < j
      invariant i <= |data| && sp.Valid() && fresh(sp)
      invariant ReadParams(data, 5, j, []) == ReadParams(data, i, j, sp.param)
      decreases |data| - i
    {
      if i + 2 > |data| {
        return Err(Overrun);
      }
      // the value is copied last
      var end := i + 2 + data[i + 1];
      var p := Param(data[i], if end <= |data| then data[i + 2..end] else []);
      var error := sp.AddMikeyPolicyParam(p);
      if error != None {
        return Err(PastEnd);
      }
      if end > |data| {
        return Err(Overrun);
      }
      i := end;
    }
    if j != 5 + sp.policyParamLength {
      return Err(AssertionFailed);
    }
    return Ok(sp.param);
  }
}
