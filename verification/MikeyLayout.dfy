/** Where each field of a payload is on the wire, byte by byte, and which payloads the messages are made of. */
module MikeyLayout {
  import opened Wrappers
  import opened Bytes
  import Rfc3830
  import opened MikeyPayload
  import opened MikeyList
  import opened KeyDerivation
  import opened KeyAgreement
  import opened MikeyAuth
  import opened MikeyPolicy
  import opened MikeyPsk
  import opened MikeyDh
  import opened MikeyDhRun

  /** The 16 bits at position o of s, the higher byte first. */
  function At16(s: seq<byte>, o: nat): nat
    requires o + 2 <= |s|
  {
    var high: nat := s[o];
    high * 256 + s[o + 1]
  }

  /** The 32 bits at position o. */
  function At32(s: seq<byte>, o: nat): nat
    requires o + 4 <= |s|
  {
    Rfc3830.Word(s[o], s[o + 1], s[o + 2], s[o + 3])
  }

  lemma {:induction false} TwoBytesOf(x: nat)
    requires x < TWO16
    ensures At16(Be(x, 2), 0) == x
  {
    hide Be, Number;
    Field16(x);
    NumberOfTwo(Be(x, 2));
  }

  lemma {:induction false} NumberOfTwo(b: seq<byte>)
    requires |b| == 2
    ensures Number(b) == At16(b, 0)
  {
    assert b[..1][..0] == [];
    assert Number(b[..1]) == b[0];
  }

  lemma {:induction false} FourBytesOf(x: nat)
    requires x < TWO32
    ensures At32(Be(x, 4), 0) == x
  {
    hide Be;
    FourBytesWord(x);
  }

  lemma {:induction false} NumberConcat(s: seq<byte>, t: seq<byte>)
    ensures Number(s + t) == Number(s) * Pow256(|t|) + Number(t)
    decreases |t|
  {
    if |t| == 0 {
      assert s + t == s;
    } else {
      var n := |t| - 1;
      NumberConcat(s, t[..n]);
      assert (s + t)[..|s + t| - 1] == s + t[..n];
      TimesNext(Number(s), Pow256(n));
    }
  }

  lemma {:induction false} TimesNext(x: nat, m: nat)
    ensures (x * m) * 256 == x * (256 * m)
  {
  }

  lemma {:induction false} EightBytesOf(x: nat)
    requires x < TWO64
    ensures var b := Be(x, 8); At32(b, 0) * TWO32 + At32(b, 4) == x
  {
    hide Be, Number, Pow256;
    var b := Be(x, 8);
    Field64(x);
    FieldSizes();
    NumberConcat(b[..4], b[4..]);
    assert b[..4] + b[4..] == b;
    NumberOfFour(b[..4]);
    NumberOfFour(b[4..]);
  }

  // ---- payloads ----

  /** Version, data type, next payload, V flag and PRF function, CSB ID, number of sessions, type of the map. */
  lemma {:induction false} HdrLayout(p: Payload)
    requires p.Hdr? && WellFormed(p)
    ensures var e := Encode(p);
      |e| >= 10 && e[0] == p.version && e[1] == p.dataType && e[2] == p.next && e[3] == (if p.v then 128 else 0) + p.prfFunc &&
      At32(e, 4) == p.csbId && e[8] == p.nCs && e[9] == p.mapType && e[10..] == EncodeMap(p.map_)
  {
    hide Be, EncodeMap, MapOk;
    FourBytesOf(p.csbId);
    var b := Be(p.csbId, 4);
    var e := Encode(p);
    assert e[4] == b[0] && e[5] == b[1] && e[6] == b[2] && e[7] == b[3];
  }

  /** Session i of an SRTP map, counted from 0: policy number, SSRC and ROC. */
  lemma {:induction false} SrtpRow(m: seq<Cs>, i: nat)
    requires MapOk(MAP_SRTP, m) && i < |m|
    ensures var e := EncodeMap(m);
      9 * i + 9 <= |e| && e[9 * i] == m[i].policyNo && At32(e, 9 * i + 1) == m[i].words[0] && At32(e, 9 * i + 5) == m[i].words[1]
    decreases |m|
  {
    hide Be, EncodeCs, MapOk;
    var n := |m| - 1;
    MapSplit(MAP_SRTP, m);
    MapLength(MAP_SRTP, m[..n]);
    if i < n {
      SrtpRow(m[..n], i);
    } else {
      RowBytes(m[n]);
    }
  }

  lemma {:induction false} RowBytes(cs: Cs)
    requires |cs.words| >= 2 && cs.words[0] < TWO32 && cs.words[1] < TWO32
    ensures var e := EncodeCs(cs);
      |e| >= 9 && e[0] == cs.policyNo && At32(e, 1) == cs.words[0] && At32(e, 5) == cs.words[1]
    ensures |cs.words| >= 3 && cs.words[2] < TWO32 ==> At32(EncodeCs(cs), 9) == cs.words[2]
  {
    hide Be;
    WordIn(cs, 0);
    WordIn(cs, 1);
    if |cs.words| >= 3 && cs.words[2] < TWO32 {
      WordIn(cs, 2);
    }
  }

  lemma {:induction false} WordIn(cs: Cs, j: nat)
    requires j < |cs.words| && cs.words[j] < TWO32
    ensures At32(EncodeCs(cs), 1 + 4 * j) == cs.words[j]
  {
    hide Be, EncodeWords;
    WordAt(cs.words, j);
    FourBytesOf(cs.words[j]);
    var e, w, b := EncodeCs(cs), EncodeWords(cs.words), Be(cs.words[j], 4);
    assert w[4 * j] == w[4 * j..4 * j + 4][0] && w[4 * j + 1] == w[4 * j..4 * j + 4][1] && w[4 * j + 2] == w[4 * j..4 * j + 4][2] &&
      w[4 * j + 3] == w[4 * j..4 * j + 4][3];
    assert forall k :: 0 <= k < |w| ==> e[1 + k] == w[k];
  }

  /** Session i of an IPsec map: policy number, SPI, source and destination address. */
  lemma {:induction false} IpsecRow(m: seq<Cs>, i: nat)
    requires MapOk(MAP_IPSEC4, m) && i < |m|
    ensures var e := EncodeMap(m);
      13 * i + 13 <= |e| && e[13 * i] == m[i].policyNo && At32(e, 13 * i + 1) == m[i].words[0] && At32(e, 13 * i + 5) == m[i].words[1] &&
      At32(e, 13 * i + 9) == m[i].words[2]
    decreases |m|
  {
    hide Be, EncodeCs, MapOk;
    var n := |m| - 1;
    MapSplit(MAP_IPSEC4, m);
    MapLength(MAP_IPSEC4, m[..n]);
    if i < n {
      IpsecRow(m[..n], i);
    } else {
      RowBytes(m[n]);
    }
  }

  /** Next payload, encryption algorithm, 16-bit length, the encrypted data, MAC algorithm, and the MAC if there is one. */
  lemma {:induction false} KemacLayout(p: Payload)
    requires p.Kemac? && WellFormed(p)
    ensures var e := Encode(p); var n := |p.encrData|;
      |e| == 5 + n + |p.mac| && e[0] == p.next && e[1] == p.encrAlg && At16(e, 2) == n && e[4..4 + n] == p.encrData && e[4 + n] == p.macAlg &&
      e[5 + n..] == p.mac
  {
    hide Be;
    TwoBytesOf(|p.encrData|);
    var b, e := Be(|p.encrData|, 2), Encode(p);
    assert e[2] == b[0] && e[3] == b[1];
  }

  /** Next payload, group, a key of 1536, 768 or 1024 bits, and a zero for no key validity. */
  lemma {:induction false} DhLayout(p: Payload)
    requires p.Dh? && WellFormed(p)
    ensures p.group <= 2 && 8 * |p.key| == (if p.group == 0 then 1536 else if p.group == 1 then 768 else 1024)
    ensures var e := Encode(p); |e| == 3 + |p.key| && e[0] == p.next && e[1] == p.group && e[2..2 + |p.key|] == p.key && e[2 + |p.key|] == 0
  {
  }

  /** Four bits of type, twelve of length, and the signature. */
  lemma {:induction false} SignLayout(p: Payload)
    requires p.Sign? && WellFormed(p)
    ensures var e := Encode(p); |e| == 2 + |p.signature| && At16(e, 0) == p.sigType as int * 4096 + |p.signature| && e[2..] == p.signature
  {
    SignFields(|p.signature|, p.sigType);
  }

  /** Next payload, type, and a number of 32 bits for a counter and of 64 bits for a time. */
  lemma {:induction false} TimeLayout(p: Payload)
    requires p.Time? && WellFormed(p)
    ensures var e := Encode(p);
      e[0] == p.next && e[1] == p.tsType &&
      if p.tsType == 2 then |e| == 6 && At32(e, 2) == p.ts else |e| == 10 && At32(e, 2) * TWO32 + At32(e, 6) == p.ts
  {
    hide Be;
    var e := Encode(p);
    var b := e[2..];
    assert b == TsField(p.tsType, p.ts);
    assert forall k :: 0 <= k < |b| ==> e[2 + k] == b[k];
    if p.tsType == TS_COUNTER {
      FourBytesOf(p.ts);
    } else {
      EightBytesOf(p.ts);
    }
  }

  /** Next payload, type, 16-bit length and the data: identities and certificates; in key data the type is in the upper four
      bits, with a zero for no key validity below. */
  lemma {:induction false} CountedLayout(p: Payload)
    requires (p.Id? || p.Cert? || p.KeyData?) && WellFormed(p)
    ensures var e := Encode(p); var d := if p.Id? then p.idData else if p.Cert? then p.certData else p.keyData;
      |e| == 4 + |d| && e[0] == p.next && At16(e, 2) == |d| && e[4..] == d &&
      e[1] == if p.Id? then p.idType else if p.Cert? then p.certType else p.keyType * 16
  {
    hide Be;
    var d := if p.Id? then p.idData else if p.Cert? then p.certData else p.keyData;
    TwoBytesOf(|d|);
    var b, e := Be(|d|, 2), Encode(p);
    assert e[2] == b[0] && e[3] == b[1];
  }

  /** Next payload, MAC algorithm, and the MAC if there is one; next payload, length, and a random value. */
  lemma {:induction false} ShortLayout(p: Payload)
    requires (p.Ver? || p.Rand?) && WellFormed(p)
    ensures var e := Encode(p);
      e[0] == p.next && if p.Ver? then e[1] == p.macAlg && e[2..] == p.mac else e[1] as int == |p.randData| && e[2..] == p.randData
  {
  }

  /** Next payload, policy number, protocol, the 16-bit length of the parameters, and the parameters. */
  lemma {:induction false} SpLayout(p: Payload)
    requires p.Sp? && WellFormed(p)
    ensures var e := Encode(p);
      |e| == 5 + ParamsLength(p.params) && e[0] == p.next && e[1] == p.policyNo && e[2] == p.protType && At16(e, 3) == ParamsLength(p.params) &&
      e[5..] == EncodeParams(p.params)
  {
    hide Be, ParamsOk, EncodeParams;
    ParamsEncodedLength(p.params);
    TwoBytesOf(p.paramLength);
    var b, e := Be(p.paramLength, 2), Encode(p);
    assert e[3] == b[0] && e[4] == b[1];
  }

  /** A parameter comes after those before it in the list: type, length and value. */
  lemma {:induction false} ParamLayout(ps: seq<Param>, i: nat)
    requires ParamsOk(ps) && i < |ps|
    ensures var e, o, n := EncodeParams(ps), ParamsLength(ps[..i]), |ps[i].value|;
      o + 2 + n <= |e| && e[o] == ps[i].ptype && e[o + 1] as int == n && e[o + 2..o + 2 + n] == ps[i].value
  {
    hide EncodeParams, ParamsOk, EncodeParam;
    ParamsSplit(ps, i);
    ParamsEncodedLength(ps[..i]);
    var h, q, e := EncodeParams(ps[..i]), EncodeParam(ps[i]), EncodeParams(ps);
    OneParamBytes(ps[i]);
    assert h + q <= e;
    assert e[|h|..|h| + |q|] == q;
    assert e[|h|] == q[0] && e[|h| + 1] == q[1];
    assert e[|h| + 2..|h| + |q|] == q[2..];
  }

  lemma {:induction false} OneParamBytes(p: Param)
    requires |p.value| < 256
    ensures var q := EncodeParam(p); |q| == 2 + |p.value| && q[0] == p.ptype && q[1] as int == |p.value| && q[2..] == p.value
  {
  }

  /** The payloads follow each other, each at the sum of the lengths before it. */
  lemma {:induction false} PayloadAt(ps: seq<Payload>, i: nat)
    requires AllOk(ps) && i < |ps|
    ensures var e, o := EncodeAll(ps), TotalLength(ps[..i]); o + Length(ps[i]) <= |e| && e[o..o + Length(ps[i])] == Encode(ps[i])
  {
    hide EncodeAll, Encode, WellFormed, Length, TotalLength;
    assert ps == ps[..i] + ([ps[i]] + ps[i + 1..]);
    EncodeAllConcat(ps[..i], [ps[i]] + ps[i + 1..]);
    EncodeAllConcat([ps[i]], ps[i + 1..]);
    EncodeOne(ps[i]);
    EncodeAllLength(ps[..i]);
    EncodeLength(ps[i]);
    var h, q, r := EncodeAll(ps[..i]), Encode(ps[i]), EncodeAll(ps[i + 1..]);
    assert EncodeAll(ps) == h + (q + r);
    assert (h + (q + r))[|h|..|h| + |q|] == q;
  }

  // ---- looking payloads up ----

  /** extractPayload finds the first payload of a type, and remove takes this one out. */
  lemma {:induction false} FirstOfType(ps: seq<Payload>, payloadType: int, i: nat)
    requires i < |ps| && TypeOf(ps[i]) == payloadType && forall j :: 0 <= j < i ==> TypeOf(ps[j]) != payloadType
    ensures Extract(ps, payloadType) == Some(ps[i]) && Remove(ps, payloadType) == ps[..i] + ps[i + 1..]
    decreases i
  {
    hide TypeOf;
    if i > 0 {
      FirstOfType(ps[1..], payloadType, i - 1);
      assert [ps[0]] + (ps[1..][..i - 1] + ps[1..][i..]) == ps[..i] + ps[i + 1..];
    }
  }

  lemma {:induction false} NoneOfType(ps: seq<Payload>, payloadType: int)
    requires forall j :: 0 <= j < |ps| ==> TypeOf(ps[j]) != payloadType
    ensures Extract(ps, payloadType) == None && Remove(ps, payloadType) == ps
    decreases |ps|
  {
    hide TypeOf;
    if |ps| > 0 {
      NoneOfType(ps[1..], payloadType);
      assert [ps[0]] + ps[1..] == ps;
    }
  }
}
