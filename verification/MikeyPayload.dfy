/** The MIKEY payloads and their binary form. */
module MikeyPayload {
  import opened Wrappers
  import opened Bytes

  // ---- payload types ----

  const LAST_PAYLOAD := 0
  const HDR_TYPE := -1
  const KEMAC_TYPE := 1
  const DH_TYPE := 3
  const SIGN_TYPE := 4
  const T_TYPE := 5
  const ID_TYPE := 6
  const CERT_TYPE := 7
  const V_TYPE := 9
  const SP_TYPE := 10
  const RAND_TYPE := 11
  const KEYDATA_TYPE := 20

  // ---- field values ----

  const PSK_INIT := 0
  const PSK_RESP := 1
  const DH_INIT := 4
  const DH_RESP := 5
  const MAP_SRTP := 0
  const MAP_IPSEC4 := 7
  const MAC_NULL := 0
  const MAC_HMAC_SHA1 := 1
  const ENCR_NULL := 0
  const ENCR_AES_CM := 1
  const TS_NTP_UTC := 0
  const TS_NTP := 1
  const TS_COUNTER := 2
  const TGK := 0
  const TGK_SALT := 1
  const TEK_SALT := 3
  const MAC_SIZE := 20

  datatype Error =
    | TooShort          // MikeyExceptionMessageLengthException of one payload
    | BadContent        // MikeyExceptionMessageContent and MikeyException
    | BadLength         // the payloads do not add up to the message
    | Overrun           // bytes after the end of the message are read
    | PastEnd           // a list iterator is moved past the end of its list
    | AssertionFailed   // an assert of the code fails, or a missing payload is dereferenced
    | Unmodelled

  /** One crypto session: for SRTP the words are the SSRC and the ROC, for IPsec the SPI and two addresses. */
  datatype Cs = Cs(policyNo: byte, words: seq<nat>)

  datatype Param = Param(ptype: byte, value: seq<byte>)

  /** Payloads with null key validity and without salt. Every payload has the type of its successor in next. */
  datatype Payload =
    | Hdr(next: byte, version: byte, dataType: byte, v: bool, prfFunc: byte, csbId: nat, nCs: byte, mapType: byte, map_: seq<Cs>)
    | Kemac(next: byte, encrAlg: byte, encrData: seq<byte>, macAlg: byte, mac: seq<byte>)
    | Dh(next: byte, group: byte, key: seq<byte>)
    | Sign(next: byte, sigType: byte, signature: seq<byte>)
    | Time(next: byte, tsType: byte, ts: nat)
    | Id(next: byte, idType: byte, idData: seq<byte>)
    | Cert(next: byte, certType: byte, certData: seq<byte>)
    | Ver(next: byte, macAlg: byte, mac: seq<byte>)
    | Sp(next: byte, policyNo: byte, protType: byte, paramLength: nat, params: seq<Param>)
    | Rand(next: byte, randData: seq<byte>)
    | KeyData(next: byte, keyType: byte, keyData: seq<byte>)

  function TypeOf(p: Payload): int {
    match p
    case Hdr(_, _, _, _, _, _, _, _, _) => HDR_TYPE
    case Kemac(_, _, _, _, _) => KEMAC_TYPE
    case Dh(_, _, _) => DH_TYPE
    case Sign(_, _, _) => SIGN_TYPE
    case Time(_, _, _) => T_TYPE
    case Id(_, _, _) => ID_TYPE
    case Cert(_, _, _) => CERT_TYPE
    case Ver(_, _, _) => V_TYPE
    case Sp(_, _, _, _, _) => SP_TYPE
    case Rand(_, _) => RAND_TYPE
    case KeyData(_, _, _) => KEYDATA_TYPE
  }

  /** setNextPayloadType */
  function SetNext(p: Payload, next: byte): Payload { p.(next := next) }

  /** The DH key length of a group, or 0 for an unknown one. */
  function DhLength(group: byte): nat {
    if group == 0 then 192 else if group == 1 then 96 else if group == 2 then 128 else 0
  }

  // ---- writing ----

  function WordsPerCs(mapType: byte): nat { if mapType == MAP_IPSEC4 then 3 else 2 }

  function EncodeWords(words: seq<nat>): (s: seq<byte>)
    ensures |s| == 4 * |words|
  {
    if |words| == 0 then [] else EncodeWords(words[..|words| - 1]) + Be(words[|words| - 1], 4)
  }

  function EncodeCs(cs: Cs): (s: seq<byte>)
    ensures |s| == 1 + 4 * |cs.words|
  {
    [cs.policyNo] + EncodeWords(cs.words)
  }

  function EncodeMap(m: seq<Cs>): seq<byte> {
    if |m| == 0 then [] else EncodeMap(m[..|m| - 1]) + EncodeCs(m[|m| - 1])
  }

  function EncodeParam(p: Param): seq<byte> { [p.ptype, |p.value| % 256] + p.value }

  function EncodeParams(ps: seq<Param>): seq<byte> {
    if |ps| == 0 then [] else EncodeParams(ps[..|ps| - 1]) + EncodeParam(ps[|ps| - 1])
  }

  function MacField(macAlg: byte, mac: seq<byte>): seq<byte> { if macAlg == MAC_HMAC_SHA1 then mac else [] }

  function TsField(tsType: byte, ts: nat): seq<byte> {
    if tsType == TS_COUNTER then Be(ts, 4) else if tsType < TS_COUNTER then Be(ts, 8) else Be(0, 8)
  }

  /** What writeData of the payload produces; length fields are truncated as the code truncates them. */
  function Encode(p: Payload): seq<byte> {
    match p
    case Hdr(next, version, dataType, v, prfFunc, csbId, nCs, mapType, m) =>
      [version, dataType, next, (if v then 128 else 0) + prfFunc % 128] + Be(csbId, 4) + [nCs, mapType] + EncodeMap(m)
    case Kemac(next, encrAlg, encrData, macAlg, mac) =>
      [next, encrAlg] + Be(|encrData|, 2) + encrData + [macAlg] + MacField(macAlg, mac)
    case Dh(next, group, key) => [next, group] + key + [0]
    case Sign(_, sigType, signature) =>
      [|signature| / 256 % 16 + sigType % 16 * 16, |signature| % 256] + signature
    case Time(next, tsType, ts) => [next, tsType] + TsField(tsType, ts)
    case Id(next, idType, data) => [next, idType] + Be(|data|, 2) + data
    case Cert(next, certType, data) => [next, certType] + Be(|data|, 2) + data
    case Ver(next, macAlg, mac) => [next, macAlg] + MacField(macAlg, mac)
    case Sp(next, policyNo, protType, paramLength, params) =>
      [next, policyNo, protType] + Be(paramLength, 2) + EncodeParams(params)
    case Rand(next, data) => [next, |data| % 256] + data
    case KeyData(next, keyType, key) => [next, keyType % 16 * 16] + Be(|key|, 2) + key
  }

  // ---- what a payload built by the library looks like ----

  function ParamsLength(ps: seq<Param>): nat {
    if |ps| == 0 then 0 else ParamsLength(ps[..|ps| - 1]) + 2 + |ps[|ps| - 1].value|
  }

  predicate MacOk(macAlg: byte, mac: seq<byte>) {
    macAlg <= MAC_HMAC_SHA1 && |mac| == if macAlg == MAC_HMAC_SHA1 then MAC_SIZE else 0
  }

  ghost predicate MapOk(mapType: byte, m: seq<Cs>) {
    (mapType == MAP_SRTP || mapType == MAP_IPSEC4) &&
    forall i :: 0 <= i < |m| ==> |m[i].words| == WordsPerCs(mapType) && forall j :: 0 <= j < |m[i].words| ==> m[i].words[j] < TWO32
  }

  ghost predicate DistinctTypes(ps: seq<Param>) {
    forall i, j :: 0 <= i < j < |ps| ==> ps[i].ptype != ps[j].ptype
  }

  ghost predicate ParamsOk(ps: seq<Param>) {
    DistinctTypes(ps) && forall i :: 0 <= i < |ps| ==> |ps[i].value| < 256
  }

  /** Fields within their widths, and lengths that fit their length fields. */
  ghost predicate WellFormed(p: Payload) {
    match p
    case Hdr(_, _, _, _, prfFunc, csbId, nCs, mapType, m) =>
      prfFunc < 128 && csbId < TWO32 && nCs == |m| && MapOk(mapType, m)
    case Kemac(_, _, encrData, macAlg, mac) => |encrData| < TWO16 && MacOk(macAlg, mac)
    case Dh(_, group, key) => group <= 2 && |key| == DhLength(group)
    case Sign(_, sigType, signature) => sigType < 16 && |signature| < 4096
    case Time(_, tsType, ts) => tsType <= TS_COUNTER && ts < if tsType == TS_COUNTER then TWO32 else TWO64
    case Id(_, _, data) => |data| < TWO16
    case Cert(_, _, data) => |data| < TWO16
    case Ver(_, macAlg, mac) => MacOk(macAlg, mac)
    case Sp(_, _, _, paramLength, params) =>
      ParamsOk(params) && paramLength == ParamsLength(params) && paramLength + 5 < TWO16
    case Rand(_, data) => |data| < 256
    case KeyData(_, keyType, key) => keyType < 16 && keyType != TGK_SALT && keyType != TEK_SALT && |key| < TWO16
  }

  /** length() of a payload. */
  function Length(p: Payload): nat {
    match p
    case Hdr(_, _, _, _, _, _, _, mapType, m) => 10 + (1 + 4 * WordsPerCs(mapType)) * |m|
    case Kemac(_, _, encrData, macAlg, _) => 5 + |encrData| + if macAlg == MAC_HMAC_SHA1 then 20 else 0
    case Dh(_, group, _) => 3 + DhLength(group)
    case Sign(_, _, signature) => 2 + |signature|
    case Time(_, tsType, _) => 2 + if tsType == TS_COUNTER then 4 else 8
    case Id(_, _, data) => 4 + |data|
    case Cert(_, _, data) => 4 + |data|
    case Ver(_, macAlg, _) => 2 + if macAlg == MAC_HMAC_SHA1 then 20 else 0
    case Sp(_, _, _, paramLength, _) => 5 + paramLength
    case Rand(_, data) => 2 + |data|
    case KeyData(_, _, key) => 4 + |key|
  }

  lemma {:induction false} MapLength(mapType: byte, m: seq<Cs>)
    requires MapOk(mapType, m)
    ensures |EncodeMap(m)| == (1 + 4 * WordsPerCs(mapType)) * |m|
  {
    hide EncodeCs;
    if |m| > 0 {
      var n := |m| - 1;
      MapLength(mapType, m[..n]);
      assert |EncodeCs(m[n])| == 1 + 4 * WordsPerCs(mapType);
      NextRow(1 + 4 * WordsPerCs(mapType), n);
    }
  }

  lemma {:induction false} NextRow(size: nat, n: nat)
    ensures size * n + size == size * (n + 1)
  {
  }

  lemma {:induction false} ParamsEncodedLength(ps: seq<Param>)
    ensures |EncodeParams(ps)| == ParamsLength(ps)
  {
    if |ps| > 0 {
      ParamsEncodedLength(ps[..|ps| - 1]);
    }
  }

  /** length() is the number of bytes that writeData writes. */
  lemma {:induction false} EncodeLength(p: Payload)
    requires WellFormed(p)
    ensures |Encode(p)| == Length(p) >= 2
  {
    match p
    case Hdr(_, _, _, _, _, _, _, mapType, m) => MapLength(mapType, m);
    case Sp(_, _, _, _, params) => ParamsEncodedLength(params);
    case _ =>
  }

  // ---- reading ----

  function DecodeCs(data: seq<byte>, o: nat, k: nat): Cs
    requires o + 1 + 4 * k <= |data|
  {
    Cs(data[o], seq(k, j requires 0 <= j < k => Number(data[o + 1 + 4 * j..o + 5 + 4 * j])))
  }

  function DecodeMap(data: seq<byte>, o: nat, k: nat, n: nat): (m: seq<Cs>)
    requires o + (1 + 4 * k) * n <= |data|
    ensures |m| == n
  {
    if n == 0 then []
    else
      assert (1 + 4 * k) * n == (1 + 4 * k) * (n - 1) + (1 + 4 * k);
      DecodeMap(data, o, k, n - 1) + [DecodeCs(data, o + (1 + 4 * k) * (n - 1), k)]
  }

  function DecodeHdr(data: seq<byte>): Result<(Payload, nat), Error> {
    if |data| < 10 then Err(TooShort)
    else
      var nCs, mapType := data[8], data[9];
      if mapType != MAP_SRTP && mapType != MAP_IPSEC4 then Err(BadContent)
      else if |data| < 10 + 9 * (nCs as int) then Err(TooShort)
      else
        var k := WordsPerCs(mapType);
        var n: nat := (1 + 4 * k) * nCs;
        if |data| < 10 + n then Err(Overrun)
        else Ok((Hdr(data[2], data[0], data[1], data[3] >= 128, data[3] % 128, Number(data[4..8]), nCs, mapType,
                     DecodeMap(data, 10, k, nCs)), 10 + n))
  }

  function DecodeKemac(data: seq<byte>): Result<(Payload, nat), Error> {
    if |data| < 5 then Err(TooShort)
    else
      var n := Number(data[2..4]);
      if |data| < 5 + n then Err(TooShort)
      else if data[4 + n] == MAC_HMAC_SHA1 then
        if |data| < 25 + n then Err(TooShort)
        else Ok((Kemac(data[0], data[1], data[4..4 + n], data[4 + n], data[5 + n..25 + n]), 25 + n))
      else if data[4 + n] == MAC_NULL then Ok((Kemac(data[0], data[1], data[4..4 + n], data[4 + n], []), 5 + n))
      else Err(BadContent)
  }

  function DecodeDh(data: seq<byte>): Result<(Payload, nat), Error> {
    if |data| < 3 then Err(TooShort)
    else if data[1] > 2 then Err(BadContent)
    else
      var n := DhLength(data[1]);
      if |data| < 3 + n then Err(TooShort)
      else
        var kvType := data[2 + n] % 16;
        if kvType == 0 then Ok((Dh(data[0], data[1], data[2..2 + n]), 3 + n))
        else if kvType <= 2 then Err(Unmodelled)
        else Err(BadContent)
  }

  function DecodeSign(data: seq<byte>): Result<(Payload, nat), Error> {
    if |data| < 2 then Err(TooShort)
    else
      var high: nat := data[0] % 16;
      var n := high * 256 + data[1];
      if |data| < 2 + n then Err(TooShort)
      else Ok((Sign(LAST_PAYLOAD, data[0] / 16, data[2..2 + n]), 2 + n))
  }

  function DecodeTime(data: seq<byte>): Result<(Payload, nat), Error> {
    if |data| < 2 then Err(TooShort)
    else if data[1] > TS_COUNTER then Err(BadContent)
    else
      var n := if data[1] == TS_COUNTER then 4 else 8;
      if |data| < 2 + n then Err(TooShort)
      else Ok((Time(data[0], data[1], Number(data[2..2 + n])), 2 + n))
  }

  function DecodeId(data: seq<byte>): Result<(Payload, nat), Error> {
    if |data| < 4 then Err(TooShort)
    else
      var n := Number(data[2..4]);
      if |data| < 4 + n then Err(TooShort) else Ok((Id(data[0], data[1], data[4..4 + n]), 4 + n))
  }

  function DecodeCert(data: seq<byte>): Result<(Payload, nat), Error> {
    if |data| < 4 then Err(TooShort)
    else
      var n := Number(data[2..4]);
      if |data| < 4 + n then Err(TooShort) else Ok((Cert(data[0], data[1], data[4..4 + n]), 4 + n))
  }

  function DecodeVer(data: seq<byte>): Result<(Payload, nat), Error> {
    if |data| < 2 then Err(TooShort)
    else if data[1] == MAC_HMAC_SHA1 then
      if |data| < 22 then Err(TooShort) else Ok((Ver(data[0], data[1], data[2..22]), 22))
    else if data[1] == MAC_NULL then Ok((Ver(data[0], data[1], []), 2))
    else Err(BadContent)
  }

  function DecodeRand(data: seq<byte>): Result<(Payload, nat), Error> {
    if |data| < 2 then Err(TooShort)
    else
      var n: nat := data[1];
      if |data| < 2 + n then Err(TooShort) else Ok((Rand(data[0], data[2..2 + n]), 2 + n))
  }

  function DecodeKeyData(data: seq<byte>): Result<(Payload, nat), Error> {
    if |data| < 4 then Err(TooShort)
    else
      var keyType, kvType, n := data[1] / 16, data[1] % 16, Number(data[2..4]);
      if keyType == TGK_SALT || keyType == TEK_SALT then Err(Unmodelled)
      else if |data| < 4 + n then Err(TooShort)
      else if kvType == 0 then Ok((KeyData(data[0], keyType, data[4..4 + n]), 4 + n))
      else if kvType <= 2 then Err(Unmodelled)
      else Err(BadContent)
  }

  // ---- the parameter list of a security policy payload ----

  function Without(ps: seq<Param>, ptype: byte): seq<Param> {
    if |ps| == 0 then []
    else if ps[|ps| - 1].ptype == ptype then Without(ps[..|ps| - 1], ptype)
    else Without(ps[..|ps| - 1], ptype) + [ps[|ps| - 1]]
  }

  /** The last parameter has the given type: deleteMikeyPolicyParam moves its iterator past the end of the list. */
  predicate IsLastType(ps: seq<Param>, ptype: byte) { |ps| > 0 && ps[|ps| - 1].ptype == ptype }

  /** addMikeyPolicyParam: replaces a parameter of the same type. */
  function AddParam(ps: seq<Param>, p: Param): seq<Param> { Without(ps, p.ptype) + [p] }

  /** The reading loop of the security policy payload, from index i up to j. */
  function ReadParams(data: seq<byte>, i: nat, j: nat, ps: seq<Param>): Result<seq<Param>, Error>
    decreases |data| - i
  {
    if i >= j then Ok(ps)
    else if i + 2 > |data| then Err(Overrun)
    else if IsLastType(ps, data[i]) then Err(PastEnd)
    else if i + 2 + data[i + 1] > |data| then Err(Overrun)
    else ReadParams(data, i + 2 + data[i + 1], j, AddParam(ps, Param(data[i], data[i + 2..i + 2 + data[i + 1]])))
  }

  function DecodeSp(data: seq<byte>): Result<(Payload, nat), Error> {
    if |data| < 5 then Err(Overrun)
    else
      var j := (Number(data[3..5]) + 5) % TWO16;
      var ps := ReadParams(data, 5, j, []);
      if ps.Err? then Err(ps.error)
      else if 5 + ParamsLength(ps.value) % TWO16 != j then Err(AssertionFailed)
      else Ok((Sp(data[0], data[1], data[2], ParamsLength(ps.value) % TWO16, ps.value), j))
  }

  /** parsePayload on the rest of the message; with the payload comes the number of bytes it took. */
  function Decode(payloadType: int, data: seq<byte>): Result<(Payload, nat), Error> {
    if payloadType == HDR_TYPE then DecodeHdr(data)
    else if payloadType == KEMAC_TYPE then DecodeKemac(data)
    else if payloadType == DH_TYPE then DecodeDh(data)
    else if payloadType == SIGN_TYPE then DecodeSign(data)
    else if payloadType == T_TYPE then DecodeTime(data)
    else if payloadType == ID_TYPE then DecodeId(data)
    else if payloadType == CERT_TYPE then DecodeCert(data)
    else if payloadType == V_TYPE then DecodeVer(data)
    else if payloadType == SP_TYPE then DecodeSp(data)
    else if payloadType == RAND_TYPE then DecodeRand(data)
    else if payloadType == KEYDATA_TYPE then DecodeKeyData(data)
    else if payloadType == 2 || payloadType == 8 || payloadType == 12 || payloadType == 21 then Err(Unmodelled)
    else if payloadType == LAST_PAYLOAD then Err(AssertionFailed)
    else Err(BadContent)
  }

  // ---- reading back what was written ----

  lemma {:induction false} Field16(x: nat)
    requires x < TWO16
    ensures Number(Be(x, 2)) == x
  {
    FieldSizes();
    FieldRoundTrip(x, 2);
  }

  lemma {:induction false} Field32(x: nat)
    requires x < TWO32
    ensures Number(Be(x, 4)) == x
  {
    FieldSizes();
    FieldRoundTrip(x, 4);
  }

  lemma {:induction false} Field64(x: nat)
    requires x < TWO64
    ensures Number(Be(x, 8)) == x
  {
    FieldSizes();
    FieldRoundTrip(x, 8);
  }

  lemma {:induction false} SubSlice(s: seq<byte>, lo: nat, hi: nat, i: nat, j: nat)
    requires lo <= hi <= |s| && i <= j <= hi - lo
    ensures s[lo..hi][i..j] == s[lo + i..lo + j]
  {
    var a, b := s[lo..hi][i..j], s[lo + i..lo + j];
    forall k | 0 <= k < j - i
      ensures a[k] == b[k]
    {
    }
  }

  lemma {:induction false} WordAt(words: seq<nat>, j: nat)
    requires j < |words|
    ensures EncodeWords(words)[4 * j..4 * j + 4] == Be(words[j], 4)
    decreases |words|
  {
    hide Be;
    var n := |words| - 1;
    var h, t := EncodeWords(words[..n]), Be(words[n], 4);
    assert EncodeWords(words) == h + t;
    if j < n {
      WordAt(words[..n], j);
      assert (h + t)[4 * j..4 * j + 4] == h[4 * j..4 * j + 4];
    } else {
      assert 4 * j == |h| && 4 * j + 4 == |h + t|;
      assert (h + t)[4 * j..4 * j + 4] == t;
    }
  }

  lemma {:induction false} CsRoundTrip(data: seq<byte>, o: nat, cs: Cs)
    requires o + 1 + 4 * |cs.words| <= |data| && data[o..o + 1 + 4 * |cs.words|] == EncodeCs(cs)
    requires forall j :: 0 <= j < |cs.words| ==> cs.words[j] < TWO32
    ensures DecodeCs(data, o, |cs.words|) == cs
  {
    hide Be, Number;
    var s := data[o..o + 1 + 4 * |cs.words|];
    assert s[0] == data[o];
    forall j | 0 <= j < |cs.words|
      ensures Number(data[o + 1 + 4 * j..o + 5 + 4 * j]) == cs.words[j]
    {
      assert s[1..] == EncodeWords(cs.words);
      SubSlice(data, o + 1, o + 1 + 4 * |cs.words|, 4 * j, 4 * j + 4);
      assert data[o + 1..o + 1 + 4 * |cs.words|] == s[1..];
      WordAt(cs.words, j);
      Field32(cs.words[j]);
    }
  }

  lemma {:induction false} DecodeMapStep(data: seq<byte>, o: nat, k: nat, n: nat)
    requires n >= 1 && o + (1 + 4 * k) * n <= |data|
    ensures (1 + 4 * k) * n == (1 + 4 * k) * (n - 1) + (1 + 4 * k)
    ensures DecodeMap(data, o, k, n) == DecodeMap(data, o, k, n - 1) + [DecodeCs(data, o + (1 + 4 * k) * (n - 1), k)]
  {
  }

  lemma {:induction false} MapSplit(mapType: byte, m: seq<Cs>)
    requires MapOk(mapType, m) && |m| > 0
    ensures var n := |m| - 1;
      MapOk(mapType, m[..n]) && |m[n].words| == WordsPerCs(mapType) && (forall j :: 0 <= j < |m[n].words| ==> m[n].words[j] < TWO32) &&
      EncodeMap(m) == EncodeMap(m[..n]) + EncodeCs(m[n]) && m == m[..n] + [m[n]]
  {
  }

  lemma {:induction false} MapRoundTrip(data: seq<byte>, o: nat, mapType: byte, m: seq<Cs>)
    requires MapOk(mapType, m)
    requires o + |EncodeMap(m)| <= |data| && data[o..o + |EncodeMap(m)|] == EncodeMap(m)
    ensures |EncodeMap(m)| == (1 + 4 * WordsPerCs(mapType)) * |m|
    ensures DecodeMap(data, o, WordsPerCs(mapType), |m|) == m
  {
    hide EncodeCs, DecodeCs, MapOk, WordsPerCs, EncodeMap;
    MapLength(mapType, m);
    if |m| > 0 {
      MapSplit(mapType, m);
      hide DecodeMap;
      var n := |m| - 1;
      var h, all, k := EncodeMap(m[..n]), EncodeMap(m), WordsPerCs(mapType);
      SubSlice(data, o, o + |all|, 0, |h|);
      SubSlice(data, o, o + |all|, |h|, |all|);
      MapLength(mapType, m[..n]);
      MapRoundTrip(data, o, mapType, m[..n]);
      DecodeMapStep(data, o, k, n + 1);
      CsRoundTrip(data, o + |h|, m[n]);
    }
  }

  lemma {:induction false} WithoutAbsent(ps: seq<Param>, ptype: byte)
    requires forall i :: 0 <= i < |ps| ==> ps[i].ptype != ptype
    ensures Without(ps, ptype) == ps
  {
    if |ps| > 0 {
      WithoutAbsent(ps[..|ps| - 1], ptype);
    }
  }

  lemma {:induction false} ParamsPrefix(ps: seq<Param>, m: nat)
    requires m <= |ps|
    ensures EncodeParams(ps[..m]) <= EncodeParams(ps)
    decreases |ps|
  {
    if m < |ps| {
      ParamsPrefix(ps[..|ps| - 1], m);
      assert ps[..|ps| - 1][..m] == ps[..m];
    } else {
      assert ps[..m] == ps;
    }
  }

  lemma {:induction false} ReadStep(data: seq<byte>, i: nat, j: nat, ps: seq<Param>, p: Param)
    requires i < j && |p.value| < 256
    requires i + 2 + |p.value| <= |data| && data[i..i + 2 + |p.value|] == EncodeParam(p) && !IsLastType(ps, p.ptype)
    ensures ReadParams(data, i, j, ps) == ReadParams(data, i + 2 + |p.value|, j, AddParam(ps, p))
  {
    hide AddParam;
    var e := data[i..i + 2 + |p.value|];
    assert data[i] == e[0] == p.ptype;
    assert data[i + 1] == e[1] == |p.value|;
    SubSlice(data, i, i + 2 + |p.value|, 2, 2 + |p.value|);
    assert e[2..2 + |p.value|] == p.value;
  }

  lemma {:induction false} PieceAt(data: seq<byte>, o: nat, all: seq<byte>, h: seq<byte>, e: seq<byte>, t: seq<byte>)
    requires o + |all| <= |data| && data[o..o + |all|] == all && t == h + e && t <= all
    ensures |t| == |h| + |e| <= |all| && data[o + |h|..o + |h| + |e|] == e
  {
    SubSlice(data, o, o + |all|, |h|, |t|);
    assert all[|h|..|t|] == t[|h|..] == e;
  }

  lemma {:induction false} ParamsSplit(ps: seq<Param>, m: nat)
    requires ParamsOk(ps) && m < |ps|
    ensures EncodeParams(ps[..m + 1]) == EncodeParams(ps[..m]) + EncodeParam(ps[m])
    ensures |EncodeParam(ps[m])| == 2 + |ps[m].value| && |ps[m].value| < 256
    ensures AddParam(ps[..m], ps[m]) == ps[..m + 1] && !IsLastType(ps[..m], ps[m].ptype)
    ensures EncodeParams(ps[..m + 1]) <= EncodeParams(ps)
  {
    assert ps[..m + 1][..m] == ps[..m];
    assert ps[..m] + [ps[m]] == ps[..m + 1];
    AddNewParam(ps[..m], ps[m]);
    ParamsPrefix(ps, m + 1);
  }

  /** The reading loop, m parameters on. */
  lemma {:induction false} ReadParamsRoundTrip(data: seq<byte>, o: nat, i: nat, ps: seq<Param>, m: nat)
    requires ParamsOk(ps) && m <= |ps|
    requires o + |EncodeParams(ps)| <= |data| && data[o..o + |EncodeParams(ps)|] == EncodeParams(ps)
    requires i == o + |EncodeParams(ps[..m])|
    ensures ReadParams(data, i, o + |EncodeParams(ps)|, ps[..m]) == Ok(ps)
    decreases |ps| - m
  {
    hide AddParam, EncodeParams, EncodeParam, ParamsOk;
    if m == |ps| {
      assert ps[..m] == ps;
    } else {
      hide ReadParams;
      ParamsSplit(ps, m);
      var e, all := EncodeParam(ps[m]), EncodeParams(ps);
      PieceAt(data, o, all, EncodeParams(ps[..m]), e, EncodeParams(ps[..m + 1]));
      ReadStep(data, i, o + |all|, ps[..m], ps[m]);
      ReadParamsRoundTrip(data, o, i + |e|, ps, m + 1);
    }
  }

  lemma {:induction false} AddNewParam(ps: seq<Param>, p: Param)
    requires forall i :: 0 <= i < |ps| ==> ps[i].ptype != p.ptype
    ensures AddParam(ps, p) == ps + [p]
  {
    WithoutAbsent(ps, p.ptype);
  }

  /** The three parts of a + b + rest. */
  lemma {:induction false} Parts(data: seq<byte>, a: seq<byte>, b: seq<byte>, rest: seq<byte>)
    requires data == a + b + rest
    ensures data[..|a|] == a && data[|a|..|a| + |b|] == b && data[|a| + |b|..] == rest
    ensures forall i :: 0 <= i < |a| ==> data[i] == a[i]
  {
  }

  lemma {:induction false} Regroup(a: seq<byte>, b: seq<byte>, c: seq<byte>)
    ensures (a + b) + c == a + (b + c)
  {
  }

  lemma {:induction false} SpRoundTrip(p: Payload, rest: seq<byte>)
    requires p.Sp? && WellFormed(p)
    ensures DecodeSp(Encode(p) + rest) == Ok((p, |Encode(p)|))
  {
    hide Be, Number, ReadParams, ParamsOk;
    var a, b, e := [p.next, p.policyNo, p.protType], Be(p.paramLength, 2), EncodeParams(p.params);
    var data := Encode(p) + rest;
    Regroup(a + b, e, rest);
    Parts(data, a, b, e + rest);
    Parts(data, a + b, e, rest);
    ParamsEncodedLength(p.params);
    Field16(p.paramLength);
    assert p.params[..0] == [];
    ReadParamsRoundTrip(data, 5, 5, p.params, 0);
  }

  lemma {:induction false} HdrFields(data: seq<byte>, a: seq<byte>, b: seq<byte>, c: seq<byte>, e: seq<byte>, rest: seq<byte>)
    requires |a| == |b| == 4 && |c| == 2 && data == a + b + c + e + rest
    ensures forall i :: 0 <= i < 4 ==> data[i] == a[i]
    ensures data[4..8] == b && data[8] == c[0] && data[9] == c[1] && data[10..10 + |e|] == e
  {
    Regroup(a + b + c, e, rest);
    Regroup(a + b, c, e + rest);
    Parts(data, a, b, c + (e + rest));
    Parts(data, a + b + c, e, rest);
  }

  lemma {:induction false} HdrRoundTrip(p: Payload, rest: seq<byte>)
    requires p.Hdr? && WellFormed(p)
    ensures DecodeHdr(Encode(p) + rest) == Ok((p, |Encode(p)|))
  {
    hide Be, Number, DecodeMap, MapOk, EncodeMap;
    var a, b := [p.version, p.dataType, p.next, (if p.v then 128 else 0) + p.prfFunc % 128], Be(p.csbId, 4);
    var c, e := [p.nCs, p.mapType], EncodeMap(p.map_);
    var data := Encode(p) + rest;
    HdrFields(data, a, b, c, e, rest);
    Field32(p.csbId);
    MapLength(p.mapType, p.map_);
    MapRoundTrip(data, 10, p.mapType, p.map_);
    MapTypes(p.mapType, p.map_);
  }

  lemma {:induction false} MapTypes(mapType: byte, m: seq<Cs>)
    requires MapOk(mapType, m)
    ensures mapType == MAP_SRTP || mapType == MAP_IPSEC4
  {
  }

  lemma {:induction false} KemacRoundTrip(p: Payload, rest: seq<byte>)
    requires p.Kemac? && WellFormed(p)
    ensures DecodeKemac(Encode(p) + rest) == Ok((p, |Encode(p)|))
  {
    hide Be, Number;
    var a, b := [p.next, p.encrAlg], Be(|p.encrData|, 2);
    var c, e, f := p.encrData, [p.macAlg], MacField(p.macAlg, p.mac);
    var data := Encode(p) + rest;
    Regroup(a + b + c + e, f, rest);
    Regroup(a + b + c, e, f + rest);
    Regroup(a + b, c, e + (f + rest));
    Parts(data, a, b, c + (e + (f + rest)));
    Parts(data, a + b, c, e + (f + rest));
    Parts(data, a + b + c, e, f + rest);
    Parts(data, a + b + c + e, f, rest);
    Field16(|c|);
    assert data[4 + |c|] == data[4 + |c|..5 + |c|][0];
  }

  lemma {:induction false} DhRoundTrip(p: Payload, rest: seq<byte>)
    requires p.Dh? && WellFormed(p)
    ensures DecodeDh(Encode(p) + rest) == Ok((p, |Encode(p)|))
  {
    var a, b, c := [p.next, p.group], p.key, [0];
    var data := Encode(p) + rest;
    Regroup(a + b, c, rest);
    Parts(data, a, b, c + rest);
    Parts(data, a + b, c, rest);
    assert data[2 + |b|] == data[2 + |b|..3 + |b|][0];
  }

  lemma {:induction false} TimeRoundTrip(p: Payload, rest: seq<byte>)
    requires p.Time? && WellFormed(p)
    ensures DecodeTime(Encode(p) + rest) == Ok((p, |Encode(p)|))
  {
    hide Be, Number;
    var b := TsField(p.tsType, p.ts);
    Parts(Encode(p) + rest, [p.next, p.tsType], b, rest);
    if p.tsType == TS_COUNTER {
      Field32(p.ts);
    } else {
      Field64(p.ts);
    }
  }

  /** A type byte, a 16-bit length and the data, as in the ID, CERT and key data payloads. */
  lemma {:induction false} LengthPrefixed(data: seq<byte>, next: byte, kind: byte, d: seq<byte>, rest: seq<byte>)
    requires |d| < TWO16 && data == ([next, kind] + Be(|d|, 2) + d) + rest
    ensures data[0] == next && data[1] == kind && Number(data[2..4]) == |d| && data[4..4 + |d|] == d
  {
    hide Be, Number;
    var a, b := [next, kind], Be(|d|, 2);
    Regroup(a + b, d, rest);
    Parts(data, a, b, d + rest);
    Parts(data, a + b, d, rest);
    Field16(|d|);
  }

  lemma {:induction false} SignFields(n: nat, t: byte)
    requires n < 4096 && t < 16
    ensures var b: nat := n / 256 % 16 + t % 16 * 16; b < 256 && b % 16 * 256 + n % 256 == n && b / 16 == t
  {
  }

  lemma {:induction false} SignRoundTrip(p: Payload, rest: seq<byte>)
    requires p.Sign? && WellFormed(p) && p.next == LAST_PAYLOAD
    ensures DecodeSign(Encode(p) + rest) == Ok((p, |Encode(p)|))
  {
    var n := |p.signature|;
    SignFields(n, p.sigType);
    Parts(Encode(p) + rest, [n / 256 % 16 + p.sigType % 16 * 16, n % 256], p.signature, rest);
  }

  lemma {:induction false} VerRoundTrip(p: Payload, rest: seq<byte>)
    requires p.Ver? && WellFormed(p)
    ensures DecodeVer(Encode(p) + rest) == Ok((p, |Encode(p)|))
  {
    Parts(Encode(p) + rest, [p.next, p.macAlg], MacField(p.macAlg, p.mac), rest);
  }

  lemma {:induction false} RandRoundTrip(p: Payload, rest: seq<byte>)
    requires p.Rand? && WellFormed(p)
    ensures DecodeRand(Encode(p) + rest) == Ok((p, |Encode(p)|))
  {
    Parts(Encode(p) + rest, [p.next, |p.randData| % 256], p.randData, rest);
  }

  lemma {:induction false} PrefixedRoundTrip(p: Payload, rest: seq<byte>)
    requires (p.Id? || p.Cert? || p.KeyData?) && WellFormed(p)
    ensures Decode(TypeOf(p), Encode(p) + rest) == Ok((p, |Encode(p)|))
  {
    hide Be, Number;
    var data := Encode(p) + rest;
    match p
    case Id(next, kind, d) => LengthPrefixed(data, next, kind, d, rest);
    case Cert(next, kind, d) => LengthPrefixed(data, next, kind, d, rest);
    case KeyData(next, kind, d) => LengthPrefixed(data, next, kind % 16 * 16, d, rest);
  }

  /** parsePayload undoes writeData, whatever follows the payload in the message; a signature payload has no next
      field on the wire. */
  lemma {:induction false} PayloadRoundTrip(p: Payload, rest: seq<byte>)
    requires WellFormed(p) && (p.Sign? ==> p.next == LAST_PAYLOAD)
    ensures Decode(TypeOf(p), Encode(p) + rest) == Ok((p, |Encode(p)|))
  {
    hide DecodeHdr, DecodeKemac, DecodeDh, DecodeSign, DecodeTime, DecodeVer, DecodeSp, DecodeRand, WellFormed, Encode;
    match p
    case Hdr(_, _, _, _, _, _, _, _, _) => HdrRoundTrip(p, rest);
    case Kemac(_, _, _, _, _) => KemacRoundTrip(p, rest);
    case Dh(_, _, _) => DhRoundTrip(p, rest);
    case Sign(_, _, _) => SignRoundTrip(p, rest);
    case Time(_, _, _) => TimeRoundTrip(p, rest);
    case Ver(_, _, _) => VerRoundTrip(p, rest);
    case Sp(_, _, _, _, _) => SpRoundTrip(p, rest);
    case Rand(_, _) => RandRoundTrip(p, rest);
    case _ => PrefixedRoundTrip(p, rest);
  }

  // ---- whatever is read ----

  lemma {:induction false} NumberSizes(s: seq<byte>)
    ensures |s| == 2 ==> Number(s) < TWO16
    ensures |s| == 4 ==> Number(s) < TWO32
    ensures |s| == 8 ==> Number(s) < TWO64
  {
    BeOfNumber(s);
    FieldSizes();
  }

  lemma {:induction false} DecodedCsOk(data: seq<byte>, o: nat, k: nat)
    requires o + 1 + 4 * k <= |data|
    ensures var words := DecodeCs(data, o, k).words; |words| == k && forall j :: 0 <= j < k ==> words[j] < TWO32
  {
    hide Number;
    forall j | 0 <= j < k
      ensures Number(data[o + 1 + 4 * j..o + 5 + 4 * j]) < TWO32
    {
      NumberSizes(data[o + 1 + 4 * j..o + 5 + 4 * j]);
    }
  }

  lemma {:induction false} MapAppend(mapType: byte, m: seq<Cs>, cs: Cs)
    requires MapOk(mapType, m) && |cs.words| == WordsPerCs(mapType) && forall j :: 0 <= j < |cs.words| ==> cs.words[j] < TWO32
    ensures MapOk(mapType, m + [cs])
  {
  }

  lemma {:induction false} DecodedMapOk(data: seq<byte>, o: nat, mapType: byte, n: nat)
    requires mapType == MAP_SRTP || mapType == MAP_IPSEC4
    requires o + (1 + 4 * WordsPerCs(mapType)) * n <= |data|
    ensures MapOk(mapType, DecodeMap(data, o, WordsPerCs(mapType), n))
    decreases n
  {
    hide DecodeCs, MapOk, WordsPerCs;
    var k := WordsPerCs(mapType);
    if n > 0 {
      DecodeMapStep(data, o, k, n);
      hide DecodeMap;
      DecodedMapOk(data, o, mapType, n - 1);
      DecodedCsOk(data, o + (1 + 4 * k) * (n - 1), k);
      MapAppend(mapType, DecodeMap(data, o, k, n - 1), DecodeCs(data, o + (1 + 4 * k) * (n - 1), k));
    } else {
      EmptyMap(mapType);
    }
  }

  lemma {:induction false} EmptyMap(mapType: byte)
    requires mapType == MAP_SRTP || mapType == MAP_IPSEC4
    ensures MapOk(mapType, [])
  {
  }

  lemma {:induction false} WithoutOk(ps: seq<Param>, ptype: byte)
    requires ParamsOk(ps)
    ensures ParamsOk(Without(ps, ptype)) && ParamsLength(Without(ps, ptype)) <= ParamsLength(ps)
    ensures forall p :: p in Without(ps, ptype) <==> p in ps && p.ptype != ptype
  {
    if |ps| > 0 {
      var n := |ps| - 1;
      assert ps == ps[..n] + [ps[n]];
      WithoutOk(ps[..n], ptype);
    }
  }

  /** addMikeyPolicyParam keeps the types distinct. */
  lemma {:induction false} AddParamOk(ps: seq<Param>, p: Param)
    requires ParamsOk(ps) && |p.value| < 256
    ensures ParamsOk(AddParam(ps, p)) && ParamsLength(AddParam(ps, p)) <= ParamsLength(ps) + 2 + |p.value|
    ensures forall q :: q in AddParam(ps, p) <==> q == p || (q in ps && q.ptype != p.ptype)
  {
    WithoutOk(ps, p.ptype);
    var w := Without(ps, p.ptype);
    assert forall i :: 0 <= i < |w| ==> w[i] in w;
    assert (w + [p])[..|w|] == w;
  }

  lemma {:induction false} ReadParamsOk(data: seq<byte>, i: nat, j: nat, ps: seq<Param>)
    requires ParamsOk(ps) && i <= |data| && i <= j + 257
    ensures var r := ReadParams(data, i, j, ps);
      r.Ok? ==> ParamsOk(r.value) && ParamsLength(r.value) <= ParamsLength(ps) + (j + 257 - i) && j <= |data|
    decreases |data| - i
  {
    hide AddParam, ParamsOk;
    if i < j && i + 2 <= |data| && !IsLastType(ps, data[i]) && i + 2 + data[i + 1] <= |data| {
      var p := Param(data[i], data[i + 2..i + 2 + data[i + 1]]);
      AddParamOk(ps, p);
      ReadParamsOk(data, i + 2 + data[i + 1], j, AddParam(ps, p));
    }
  }

  lemma {:induction false} NoParams()
    ensures ParamsOk([]) && ParamsLength([]) == 0
  {
  }

  lemma {:induction false} DecodeSpSound(data: seq<byte>)
    ensures var r := DecodeSp(data); r.Ok? ==> WellFormed(r.value.0) && r.value.0.Sp? && r.value.1 == Length(r.value.0) <= |data|
  {
    hide ReadParams, ParamsOk, Number;
    if |data| >= 5 {
      NoParams();
      NumberSizes(data[3..5]);
      ReadParamsOk(data, 5, (Number(data[3..5]) + 5) % TWO16, []);
    }
  }

  lemma {:induction false} DecodeHdrSound(data: seq<byte>)
    ensures var r := DecodeHdr(data); r.Ok? ==> WellFormed(r.value.0) && r.value.0.Hdr? && r.value.1 == Length(r.value.0) <= |data|
  {
    hide Number, DecodeMap, MapOk;
    var r := DecodeHdr(data);
    if r.Ok? {
      NumberSizes(data[4..8]);
      DecodedMapOk(data, 10, data[9], data[8]);
    }
  }

  lemma {:induction false} DecodeTimeSound(data: seq<byte>)
    ensures var r := DecodeTime(data); r.Ok? ==> WellFormed(r.value.0) && r.value.0.Time? && r.value.1 == Length(r.value.0) <= |data|
  {
    hide Number;
    if DecodeTime(data).Ok? {
      NumberSizes(data[2..2 + if data[1] == TS_COUNTER then 4 else 8]);
    }
  }

  lemma {:induction false} DecodeKemacSound(data: seq<byte>)
    ensures var r := DecodeKemac(data); r.Ok? ==> WellFormed(r.value.0) && r.value.0.Kemac? && r.value.1 == Length(r.value.0) <= |data|
  {
    hide Number;
    if DecodeKemac(data).Ok? {
      NumberSizes(data[2..4]);
    }
  }

  /** Payloads without loops or alternatives in their layout. */
  lemma {:induction false} DecodePlainSound(data: seq<byte>)
    ensures var r := DecodeDh(data); r.Ok? ==> WellFormed(r.value.0) && r.value.0.Dh? && r.value.1 == Length(r.value.0) <= |data|
    ensures var r := DecodeSign(data); r.Ok? ==> WellFormed(r.value.0) && r.value.0.Sign? && r.value.0.next == LAST_PAYLOAD && r.value.1 == Length(r.value.0) <= |data|
    ensures var r := DecodeVer(data); r.Ok? ==> WellFormed(r.value.0) && r.value.0.Ver? && r.value.1 == Length(r.value.0) <= |data|
    ensures var r := DecodeRand(data); r.Ok? ==> WellFormed(r.value.0) && r.value.0.Rand? && r.value.1 == Length(r.value.0) <= |data|
  {
  }

  lemma {:induction false} DecodePrefixedSound(data: seq<byte>)
    ensures var r := DecodeId(data); r.Ok? ==> WellFormed(r.value.0) && r.value.0.Id? && r.value.1 == Length(r.value.0) <= |data|
    ensures var r := DecodeCert(data); r.Ok? ==> WellFormed(r.value.0) && r.value.0.Cert? && r.value.1 == Length(r.value.0) <= |data|
    ensures var r := DecodeKeyData(data); r.Ok? ==> WellFormed(r.value.0) && r.value.0.KeyData? && r.value.1 == Length(r.value.0) <= |data|
  {
    hide Number;
    if |data| >= 4 {
      NumberSizes(data[2..4]);
    }
  }

  /** A payload that parsePayload accepts has the type asked for, is well formed, lies within the message, and
      takes exactly the number of bytes that its length() reports. */
  lemma {:induction false} DecodeSound(payloadType: int, data: seq<byte>)
    ensures var r := Decode(payloadType, data);
      r.Ok? ==> WellFormed(r.value.0) && (r.value.0.Sign? ==> r.value.0.next == LAST_PAYLOAD) &&
                TypeOf(r.value.0) == payloadType && 2 <= r.value.1 == Length(r.value.0) <= |data|
  {
    hide DecodeHdr, DecodeKemac, DecodeDh, DecodeSign, DecodeTime, DecodeId, DecodeCert, DecodeVer, DecodeSp, DecodeRand, DecodeKeyData;
    hide WellFormed;
    DecodeHdrSound(data);
    DecodeKemacSound(data);
    DecodePlainSound(data);
    DecodeTimeSound(data);
    DecodePrefixedSound(data);
    DecodeSpSound(data);
  }
}
