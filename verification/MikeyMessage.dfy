/** MikeyPayloads: the mutable list of payloads of a message, with its cached bytes. */
module MikeyMessage {
  import opened Wrappers
  import opened Bytes
  import opened MikeyPayload
  import opened MikeyList
  import opened MikeyWriter
  import opened MikeySp

  class MikeyPayloads {
    var payloads: seq<Payload>
    var compiled: bool
    var rawData: array?<byte>

    ghost predicate Valid()
      reads this
    {
      AllOk(payloads) && (compiled ==> rawData != null)
    }

    /** A message under construction: nothing is cached as final, and the links are right. */
    ghost predicate Local()
      reads this
    {
      Valid() && !compiled && Linked(payloads)
    }

    /** What rawMessageData returns. */
    ghost function Raw(): seq<byte>
      reads this, if rawData == null then {} else {rawData}
    {
      if compiled && rawData != null then rawData[..] else EncodeAll(payloads)
    }

    constructor ()
      ensures payloads == [] && Local()
    {
      payloads, compiled, rawData := [], false, null;
    }

    /** addPayload */
    method AddPayload(p: Payload)
      requires AllOk(payloads) && WellFormed(p)
      modifies `payloads, `compiled
      ensures payloads == MikeyList.AddPayload(old(payloads), p) && Valid() && !compiled
      ensures old(Open(payloads)) && p.next == LAST_PAYLOAD && (TypeOf(p) != HDR_TYPE || old(payloads) == []) ==> Linked(payloads)
    {
      hide WellFormed, Linked;
      ghost var before := payloads;
      compiled := false;
      if TypeOf(p) != HDR_TYPE && |payloads| > 0 {
        TypeRange(p);
        SetNextOk(payloads[|payloads| - 1], TypeOf(p));
        payloads := payloads[|payloads| - 1 := SetNext(payloads[|payloads| - 1], TypeOf(p))];
      }
      payloads := payloads + [p];
      assert payloads == MikeyList.AddPayload(before, p);
      if Open(before) && p.next == LAST_PAYLOAD && (TypeOf(p) != HDR_TYPE || before == []) {
        AddPayloadOk(before, p);
      }
    }

    /** setMac, setSigData and the like, on payload k of the list: the compiled flag is left alone. */
    method Update(k: nat, q: Payload)
      requires AllOk(payloads) && k < |payloads| && WellFormed(q) && TypeOf(q) == TypeOf(payloads[k]) && q.next == payloads[k].next
      modifies `payloads
      ensures payloads == old(payloads)[k := q] && AllOk(payloads)
      ensures old(Linked(payloads)) ==> Linked(payloads)
    {
      hide WellFormed;
      ghost var before := payloads;
      payloads := payloads[k := q];
      if Linked(before) {
        SameTypeSign(q, before[k]);
        ReplaceOk(before, k, q);
      }
    }

    /** rawMessageLength */
    method RawMessageLength() returns (length: nat)
      ensures length == TotalLength(payloads)
    {
      hide Length;
      length := 0;
      for i := 0 to |payloads|
        invariant length == TotalLength(payloads[..i])
      {
        EncodeAllStep(payloads, i);
        length := length + Length(payloads[i]);
      }
      assert payloads[..|payloads|] == payloads;
    }

    /** compile: writes all payloads into a new buffer. The flag stays false, so that later changes to a payload
        are never hidden behind stale bytes. */
    method Compile()
      requires Valid() && !compiled
      modifies `rawData
      ensures Valid() && rawData != null && fresh(rawData) && rawData[..] == EncodeAll(payloads)
    {
      hide WellFormed, Encode, EncodeAll, Length, TotalLength;
      var length := RawMessageLength();
      var buffer := new byte[length];
      var pos := 0;
      EncodeAllLength(payloads);
      NoPayloads();
      assert payloads[..0] == [];
      for i := 0 to |payloads|
        invariant pos == |EncodeAll(payloads[..i])| && Holds(buffer, 0, EncodeAll(payloads[..i]))
        invariant rawData == old(rawData)
      {
        EncodeAllStep(payloads, i);
        EncodeAllPrefix(payloads, i + 1);
        EncodeLength(payloads[i]);
        var len := Length(payloads[i]);
        ghost var done := EncodeAll(payloads[..i]);
        WriteData(payloads[i], buffer, pos, len);
        Adjacent(buffer, 0, done, Encode(payloads[i]));
        pos := pos + len;
      }
      assert payloads[..|payloads|] == payloads;
      assert buffer[0..buffer.Length] == buffer[..];
      rawData := buffer;
    }

    /** rawMessageData: compiled again on every call until a received message is installed. */
    method RawMessageData() returns (data: array<byte>)
      requires Valid()
      modifies `rawData
      ensures Valid() && data == rawData && data[..] == old(Raw()) == Raw()
    {
      if !compiled {
        Compile();
      }
      data := rawData;
    }

    /** setRawMessageData */
    method SetRawMessageData(data: array<byte>)
      requires AllOk(payloads)
      modifies `rawData, `compiled
      ensures rawData == data && compiled && Valid()
    {
      rawData := data;
      compiled := true;
    }

    /** MikeyPayloads::parse, and then the message keeps the received bytes. */
    method Parse(firstPayloadType: int, message: array<byte>) returns (error: Option<Error>)
      modifies this
      ensures var r := ParseList(firstPayloadType, message[..]);
        if r.Ok? then error == None && payloads == r.value && compiled && rawData == message && Valid()
        else error == Some(r.error) && payloads == old(payloads) && compiled == old(compiled) && rawData == old(rawData)
    {
      var r := ParsePayloads(firstPayloadType, message[..]);
      if r.Err? {
        return Some(r.error);
      }
      ParseSound(firstPayloadType, message[..]);
      payloads := r.value;
      SetRawMessageData(message);
      return None;
    }

    /** extractPayload */
    method ExtractPayload(payloadType: int) returns (r: Option<Payload>)
      ensures r == Extract(payloads, payloadType)
    {
      hide TypeOf;
      for i := 0 to |payloads|
        invariant Extract(payloads, payloadType) == Extract(payloads[i..], payloadType)
      {
        if TypeOf(payloads[i]) == payloadType {
          return Some(payloads[i]);
        }
        assert payloads[i..][1..] == payloads[i + 1..];
      }
      return None;
    }

    /** remove, of the payload that extractPayload yields. */
    method RemovePayload(payloadType: int)
      modifies `payloads
      ensures payloads == Remove(old(payloads), payloadType)
    {
      hide TypeOf;
      ghost var before := payloads;
      for i := 0 to |payloads|
        invariant payloads == before
        invariant Remove(before, payloadType) == before[..i] + Remove(before[i..], payloadType)
      {
        if TypeOf(payloads[i]) == payloadType {
          payloads := payloads[..i] + payloads[i + 1..];
          assert before[i..][1..] == before[i + 1..];
          return;
        }
        assert before[i..][1..] == before[i + 1..];
        RemoveStep(before, i, payloadType);
      }
      assert before[..|before|] == before && before[|before|..] == [];
    }
  }

  lemma {:induction false} RemoveStep(ps: seq<Payload>, i: nat, payloadType: int)
    requires i < |ps| && TypeOf(ps[i]) != payloadType
    ensures ps[..i] + Remove(ps[i..], payloadType) == ps[..i + 1] + Remove(ps[i + 1..], payloadType)
  {
    assert ps[i..][1..] == ps[i + 1..];
    assert ps[..i + 1] == ps[..i] + [ps[i]];
  }

  lemma {:induction false} SameTypeSign(p: Payload, q: Payload)
    requires TypeOf(p) == TypeOf(q)
    ensures p.Sign? <==> q.Sign?
  {
  }

  lemma {:induction false} NoPayloads()
    ensures EncodeAll([]) == [] && TotalLength([]) == 0
  {
  }

  lemma {:induction false} EncodeAllPrefix(ps: seq<Payload>, j: nat)
    requires j <= |ps|
    ensures |EncodeAll(ps[..j])| <= |EncodeAll(ps)|
  {
    assert ps == ps[..j] + ps[j..];
    EncodeAllConcat(ps[..j], ps[j..]);
  }

  /** parsePayload. The constructors of the header and of the security policy read their lists in loops; those of the
      other payloads are the decoding functions. */
  method ParsePayload(payloadType: int, data: seq<byte>) returns (r: Result<(Payload, nat), Error>)
    ensures r == Decode(payloadType, data)
  {
    hide Number, ReadParams, DecodeMap, DecodeKemac, DecodeDh, DecodeSign, DecodeTime, DecodeId, DecodeCert, DecodeVer, DecodeRand, DecodeKeyData;
    if payloadType == SP_TYPE && |data| >= 5 {
      var j := (Number(data[3..5]) + 5) % TWO16;
      var ps := ReadParameters(data, j);
      if ps.Err? {
        return Err(ps.error);
      }
      return Ok((Sp(data[0], data[1], data[2], j - 5, ps.value), j));
    }
    if payloadType == HDR_TYPE && |data| >= 10 && (data[9] == MAP_SRTP || data[9] == MAP_IPSEC4) {
      var k := WordsPerCs(data[9]);
      var nCs: nat := data[8];
      if |data| < 10 + 9 * nCs {
        return Err(TooShort);
      }
      if |data| < 10 + (1 + 4 * k) * nCs {
        return Err(Overrun);
      }
      var m := ReadMap(data, 10, k, nCs);
      return Ok((Hdr(data[2], data[0], data[1], data[3] >= 128, data[3] % 128, Number(data[4..8]), data[8], data[9], m),
                 10 + (1 + 4 * k) * nCs));
    }
    r := Decode(payloadType, data);
  }

  /** The parsing loop: msgpos moves on by what each payload took. */
  method ParsePayloads(firstPayloadType: int, message: seq<byte>) returns (r: Result<seq<Payload>, Error>)
    ensures r == ParseList(firstPayloadType, message)
  {
    hide Decode, WellFormed, TypeOf, Length;
    var first := ParsePayload(firstPayloadType, message);
    if first.Err? {
      return Err(first.error);
    }
    DecodeSound(firstPayloadType, message);
    var payloads := [first.value.0];
    var msgpos := first.value.1;
    var next := first.value.0.next;
    while msgpos < |message| && next != LAST_PAYLOAD
      invariant msgpos <= |message|
      invariant ParseList(firstPayloadType, message) == PrependAll(payloads, ParseRest(next, message[msgpos..]))
    {
      var payload := ParsePayload(next, message[msgpos..]);
      if payload.Err? {
        return Err(payload.error);
      }
      DecodeSound(next, message[msgpos..]);
      ghost var rest := ParseRest(payload.value.0.next, message[msgpos + payload.value.1..]);
      assert message[msgpos..][payload.value.1..] == message[msgpos + payload.value.1..];
      PrependOne(payloads, payload.value.0, rest);
      next := payload.value.0.next;
      payloads := payloads + [payload.value.0];
      msgpos := msgpos + payload.value.1;
    }
    if !(msgpos == |message| && next == LAST_PAYLOAD) {
      return Err(BadLength);
    }
    assert payloads + [] == payloads;
    return Ok(payloads);
  }

  function PrependAll(a: seq<Payload>, r: Result<seq<Payload>, Error>): Result<seq<Payload>, Error> {
    if r.Err? then r else Ok(a + r.value)
  }

  lemma {:induction false} PrependOne(a: seq<Payload>, p: Payload, r: Result<seq<Payload>, Error>)
    ensures PrependAll(a, Prepend(p, r)) == PrependAll(a + [p], r)
  {
    if r.Ok? {
      Associative(a, [p], r.value);
    }
  }

  lemma {:induction false} Associative<T>(a: seq<T>, b: seq<T>, c: seq<T>)
    ensures a + (b + c) == (a + b) + c
  {
  }
}
