/** writeData of the payloads, into a buffer, and the reading loop of the CS ID map. */
module MikeyWriter {
  import opened Bytes
  import opened MikeyPayload

  /** The bytes of s lie at offset o. */
  ghost predicate Holds(start: array<byte>, o: nat, s: seq<byte>)
    reads start
  {
    o + |s| <= start.Length && start[o..o + |s|] == s
  }

  /** Nothing outside [o, o + n) has changed. */
  twostate predicate OnlyWrote(start: array<byte>, o: nat, n: nat)
    reads start
  {
    forall k :: 0 <= k < start.Length && !(o <= k < o + n) ==> start[k] == old(start[k])
  }

  /** memcpy to offset o. */
  method Put(start: array<byte>, o: nat, s: seq<byte>)
    requires o + |s| <= start.Length
    modifies start
    ensures Holds(start, o, s)
    ensures OnlyWrote(start, o, |s|)
  {
    for k := 0 to |s|
      invariant forall m :: 0 <= m < k ==> start[o + m] == s[m]
      invariant OnlyWrote(start, o, k)
    {
      start[o + k] := s[k];
    }
  }

  /** Writes the next piece after what has been written at offset o. */
  method PutNext(start: array<byte>, o: nat, ghost done: seq<byte>, at: nat, s: seq<byte>) returns (end: nat)
    requires Holds(start, o, done) && at == o + |done| && at + |s| <= start.Length
    modifies start
    ensures Holds(start, o, done + s) && end == at + |s|
    ensures OnlyWrote(start, at, |s|)
  {
    Put(start, at, s);
    Adjacent(start, o, done, s);
    end := at + |s|;
  }

  lemma {:induction false} Adjacent(start: array<byte>, o: nat, a: seq<byte>, b: seq<byte>)
    requires Holds(start, o, a) && Holds(start, o + |a|, b)
    ensures Holds(start, o, a + b)
  {
    assert start[o..o + |a| + |b|] == start[o..o + |a|] + start[o + |a|..o + |a| + |b|];
  }

  /** The loops that write a number byte by byte, most significant byte first. */
  method PutNumber(start: array<byte>, o: nat, ghost done: seq<byte>, at: nat, x: nat, n: nat) returns (end: nat)
    requires Holds(start, o, done) && at == o + |done| && at + n <= start.Length
    modifies start
    ensures Holds(start, o, done + Be(x, n)) && end == at + n
    ensures OnlyWrote(start, at, n)
  {
    for k := 0 to n
      invariant forall m :: 0 <= m < k ==> start[at + m] == Be(x, n)[m]
      invariant Holds(start, o, done)
      invariant OnlyWrote(start, at, k)
    {
      ByteOf(x, n, k);
      start[at + k] := x / Pow256(n - 1 - k) % 256;
    }
    Adjacent(start, o, done, Be(x, n));
    end := at + n;
  }

  /** (x >> 8 * (n - 1 - k)) & 0xFF. */
  lemma {:induction false} ByteOf(x: nat, n: nat, k: nat)
    requires k < n
    ensures Be(x, n)[k] == x / Pow256(n - 1 - k) % 256
    decreases n
  {
    if k < n - 1 {
      ByteOf(x / 256, n - 1, k);
      DivideTwice(x, Pow256(n - 2 - k));
      assert Be(x, n)[k] == Be(x / 256, n - 1)[k];
    } else {
      assert Pow256(0) == 1;
    }
  }

  lemma {:induction false} DivideTwice(x: nat, m: nat)
    requires m >= 1
    ensures x / 256 / m == x / (256 * m)
  {
    var q := x / 256 / m;
    var r := x - 256 * m * q;
    assert x / 256 == m * q + x / 256 % m;
    assert 256 * (m * q) == 256 * m * q;
    assert 0 <= r < 256 * m;
    QuotientIs(x, 256 * m, q, r);
  }

  lemma {:induction false} QuotientIs(x: nat, m: nat, q: nat, r: nat)
    requires m >= 1 && x == m * q + r && r < m
    ensures x / m == q
  {
    var d := x / m - q;
    assert m * d == r - x % m;
    if d != 0 {
      Multiple(m, d);
    }
  }

  lemma {:induction false} EncodeMapStep(m: seq<Cs>, j: nat)
    requires j < |m|
    ensures EncodeMap(m[..j + 1]) == EncodeMap(m[..j]) + EncodeCs(m[j])
  {
    assert m[..j + 1][..j] == m[..j];
  }

  lemma {:induction false} EncodeMapPrefix(m: seq<Cs>, j: nat)
    requires j <= |m|
    ensures |EncodeMap(m[..j])| <= |EncodeMap(m)|
    decreases |m| - j
  {
    if j < |m| {
      EncodeMapPrefix(m, j + 1);
      EncodeMapStep(m, j);
    } else {
      assert m[..j] == m;
    }
  }

  lemma {:induction false} EncodeWordsStep(words: seq<nat>, j: nat)
    requires j < |words|
    ensures EncodeWords(words[..j + 1]) == EncodeWords(words[..j]) + Be(words[j], 4)
  {
    assert words[..j + 1][..j] == words[..j];
  }

  /** One row of the map: the policy number and the words of the session. */
  method WriteCs(start: array<byte>, o: nat, ghost done: seq<byte>, at: nat, cs: Cs) returns (end: nat)
    requires Holds(start, o, done) && at == o + |done| && at + 1 + 4 * |cs.words| <= start.Length
    modifies start
    ensures Holds(start, o, done + EncodeCs(cs)) && end == at + 1 + 4 * |cs.words|
    ensures OnlyWrote(start, at, 1 + 4 * |cs.words|)
  {
    hide Be, EncodeWords;
    end := PutNext(start, o, done, at, [cs.policyNo]);
    NoWords();
    assert cs.words[..0] == [];
    ghost var head := done + [cs.policyNo];
    assert head + [] == head;
    for k := 0 to |cs.words|
      invariant end == at + 1 + 4 * k
      invariant Holds(start, o, head + EncodeWords(cs.words[..k])) && OnlyWrote(start, at, 1 + 4 * k)
    {
      EncodeWordsStep(cs.words, k);
      Regroup(head, EncodeWords(cs.words[..k]), Be(cs.words[k], 4));
      end := PutNumber(start, o, head + EncodeWords(cs.words[..k]), end, cs.words[k], 4);
    }
    assert cs.words[..|cs.words|] == cs.words;
    Regroup(done, [cs.policyNo], EncodeWords(cs.words));
  }

  lemma {:induction false} NoWords()
    ensures EncodeWords([]) == [] && EncodeMap([]) == [] && EncodeParams([]) == []
  {
  }

  /** writeData of the CS ID map. */
  method WriteMap(start: array<byte>, o: nat, ghost done: seq<byte>, at: nat, m: seq<Cs>) returns (end: nat)
    requires Holds(start, o, done) && at == o + |done| && at + |EncodeMap(m)| <= start.Length
    modifies start
    ensures Holds(start, o, done + EncodeMap(m)) && end == at + |EncodeMap(m)|
    ensures OnlyWrote(start, at, |EncodeMap(m)|)
  {
    hide EncodeCs, EncodeMap;
    end := at;
    NoWords();
    assert m[..0] == [] && done + [] == done;
    for j := 0 to |m|
      invariant end == at + |EncodeMap(m[..j])|
      invariant Holds(start, o, done + EncodeMap(m[..j])) && OnlyWrote(start, at, |EncodeMap(m[..j])|)
    {
      EncodeMapStep(m, j);
      EncodeMapPrefix(m, j + 1);
      Regroup(done, EncodeMap(m[..j]), EncodeCs(m[j]));
      end := WriteCs(start, o, done + EncodeMap(m[..j]), end, m[j]);
    }
    assert m[..|m|] == m;
  }

  lemma {:induction false} EncodeParamsStep(ps: seq<Param>, j: nat)
    requires j < |ps|
    ensures EncodeParams(ps[..j + 1]) == EncodeParams(ps[..j]) + EncodeParam(ps[j])
    ensures |EncodeParams(ps[..j + 1])| <= |EncodeParams(ps)|
  {
    assert ps[..j + 1][..j] == ps[..j];
    ParamsPrefix(ps, j + 1);
  }

  lemma {:induction false} ParamSizes(ps: seq<Param>, j: nat)
    requires j < |ps|
    ensures |EncodeParams(ps[..j])| < |EncodeParams(ps)|
  {
    EncodeParamsStep(ps, j);
  }

  /** The parameter loop of writeData of the security policy payload, bounded also by the expected length. */
  method WriteParams(start: array<byte>, o: nat, ghost done: seq<byte>, at: nat, ps: seq<Param>, expectedLength: nat) returns (end: nat)
    requires Holds(start, o, done) && at == o + |done| && at + |EncodeParams(ps)| == o + expectedLength <= start.Length
    modifies start
    ensures Holds(start, o, done + EncodeParams(ps)) && end == at + |EncodeParams(ps)|
    ensures OnlyWrote(start, at, |EncodeParams(ps)|)
  {
    hide EncodeParam, EncodeParams;
    end := at;
    var i := 0;
    NoWords();
    assert ps[..0] == [] && done + [] == done;
    while i < |ps| && end < o + expectedLength
      invariant 0 <= i <= |ps|
      invariant end == at + |EncodeParams(ps[..i])|
      invariant Holds(start, o, done + EncodeParams(ps[..i])) && OnlyWrote(start, at, |EncodeParams(ps[..i])|)
    {
      EncodeParamsStep(ps, i);
      Regroup(done, EncodeParams(ps[..i]), EncodeParam(ps[i]));
      end := PutNext(start, o, done + EncodeParams(ps[..i]), end, EncodeParam(ps[i]));
      i := i + 1;
    }
    if i < |ps| {
      ParamSizes(ps, i);
    }
    assert ps[..|ps|] == ps;
  }

  method WriteHdr(p: Payload, start: array<byte>, o: nat)
    requires p.Hdr? && o + |Encode(p)| <= start.Length
    modifies start
    ensures Holds(start, o, Encode(p)) && OnlyWrote(start, o, |Encode(p)|)
  {
    hide Be, EncodeMap;
    ghost var a := [p.version, p.dataType, p.next, (if p.v then 128 else 0) + p.prfFunc % 128];
    ghost var b, c := Be(p.csbId, 4), [p.nCs, p.mapType];
    var at := PutNext(start, o, [], o, [p.version, p.dataType, p.next, (if p.v then 128 else 0) + p.prfFunc % 128]);
    assert [] + a == a;
    at := PutNumber(start, o, a, at, p.csbId, 4);
    at := PutNext(start, o, a + b, at, [p.nCs, p.mapType]);
    at := WriteMap(start, o, a + b + c, at, p.map_);
  }

  method WriteSp(p: Payload, start: array<byte>, o: nat, expectedLength: nat)
    requires p.Sp? && |Encode(p)| == expectedLength && o + expectedLength <= start.Length
    modifies start
    ensures Holds(start, o, Encode(p)) && OnlyWrote(start, o, expectedLength)
  {
    hide Be, EncodeParams;
    ghost var a := [p.next, p.policyNo, p.protType];
    var at := PutNext(start, o, [], o, [p.next, p.policyNo, p.protType]);
    assert [] + a == a;
    at := PutNumber(start, o, a, at, p.paramLength, 2);
    at := WriteParams(start, o, a + Be(p.paramLength, 2), at, p.params, expectedLength);
  }

  method WriteKemac(p: Payload, start: array<byte>, o: nat)
    requires p.Kemac? && o + |Encode(p)| <= start.Length
    modifies start
    ensures Holds(start, o, Encode(p)) && OnlyWrote(start, o, |Encode(p)|)
  {
    hide Be;
    var at := Prefixed(start, o, p.next, p.encrAlg, p.encrData);
    ghost var a := [p.next, p.encrAlg] + Be(|p.encrData|, 2) + p.encrData;
    at := PutNext(start, o, a, at, [p.macAlg]);
    if p.macAlg == MAC_HMAC_SHA1 {
      at := PutNext(start, o, a + [p.macAlg], at, p.mac);
    }
    assert a + [p.macAlg] + [] == a + [p.macAlg];
  }

  /** writeData of the payloads of fixed sizes. */
  method WriteFixed(p: Payload, start: array<byte>, o: nat)
    requires WellFormed(p) && (p.Dh? || p.Time? || p.Ver?) && o + |Encode(p)| <= start.Length
    modifies start
    ensures Holds(start, o, Encode(p)) && OnlyWrote(start, o, |Encode(p)|)
  {
    hide Be;
    var at := TwoBytes(start, o, p.next, if p.Dh? then p.group else if p.Time? then p.tsType else p.macAlg, |Encode(p)| - 2);
    match p {
      case Dh(next, group, key) =>
        at := PutNext(start, o, [next, group], at, key);
        at := PutNext(start, o, [next, group] + key, at, [0]);
      case Time(next, tsType, ts) =>
        at := PutNumber(start, o, [next, tsType], at, ts, if tsType == TS_COUNTER then 4 else 8);
      case Ver(next, macAlg, mac) =>
        if macAlg == MAC_HMAC_SHA1 {
          at := PutNext(start, o, [next, macAlg], at, mac);
        }
        assert [next, macAlg] + [] == [next, macAlg];
    }
  }

  /** writeData of the payloads that are a length and that many bytes. */
  method WriteCounted(p: Payload, start: array<byte>, o: nat)
    requires (p.Sign? || p.Id? || p.Cert? || p.Rand? || p.KeyData?) && o + |Encode(p)| <= start.Length
    modifies start
    ensures Holds(start, o, Encode(p)) && OnlyWrote(start, o, |Encode(p)|)
  {
    hide Be;
    var at;
    match p {
      case Sign(_, sigType, signature) =>
        at := TwoBytes(start, o, |signature| / 256 % 16 + sigType % 16 * 16, |signature| % 256, |signature|);
        at := PutNext(start, o, [|signature| / 256 % 16 + sigType % 16 * 16, |signature| % 256], at, signature);
      case Rand(next, data) =>
        at := TwoBytes(start, o, next, |data| % 256, |data|);
        at := PutNext(start, o, [next, |data| % 256], at, data);
      case Id(next, idType, data) => at := Prefixed(start, o, next, idType, data);
      case Cert(next, certType, data) => at := Prefixed(start, o, next, certType, data);
      case KeyData(next, keyType, key) => at := Prefixed(start, o, next, keyType % 16 * 16, key);
    }
  }

  method TwoBytes(start: array<byte>, o: nat, b0: byte, b1: byte, more: nat) returns (at: nat)
    requires o + 2 + more <= start.Length
    modifies start
    ensures Holds(start, o, [b0, b1]) && at == o + 2
    ensures OnlyWrote(start, o, 2)
  {
    start[o] := b0;
    start[o + 1] := b1;
    at := o + 2;
  }

  /** Two bytes, a 16-bit length, and that many bytes. */
  method Prefixed(start: array<byte>, o: nat, b0: byte, b1: byte, data: seq<byte>) returns (at: nat)
    requires o + 4 + |data| <= start.Length
    modifies start
    ensures Holds(start, o, [b0, b1] + Be(|data|, 2) + data) && at == o + 4 + |data|
    ensures OnlyWrote(start, o, 4 + |data|)
  {
    hide Be;
    at := TwoBytes(start, o, b0, b1, 2 + |data|);
    at := PutNumber(start, o, [b0, b1], at, |data|, 2);
    at := PutNext(start, o, [b0, b1] + Be(|data|, 2), at, data);
  }

  /** writeData, with its assertion that the caller expects length() bytes. */
  method WriteData(p: Payload, start: array<byte>, o: nat, expectedLength: nat)
    requires WellFormed(p) && expectedLength == Length(p) && o + expectedLength <= start.Length
    modifies start
    ensures Holds(start, o, Encode(p)) && OnlyWrote(start, o, expectedLength)
  {
    hide Encode, Length;
    EncodeLength(p);
    match p {
      case Hdr(_, _, _, _, _, _, _, _, _) => WriteHdr(p, start, o);
      case Sp(_, _, _, _, _) => WriteSp(p, start, o, expectedLength);
      case Kemac(_, _, _, _, _) => WriteKemac(p, start, o);
      case Dh(_, _, _) => WriteFixed(p, start, o);
      case Time(_, _, _) => WriteFixed(p, start, o);
      case Ver(_, _, _) => WriteFixed(p, start, o);
      case _ => WriteCounted(p, start, o);
    }
  }

  // ---- the reading loop ----

  /** The constructor of the CS ID map from a buffer. */
  method ReadMap(data: seq<byte>, o: nat, k: nat, nCs: nat) returns (m: seq<Cs>)
    requires o + (1 + 4 * k) * nCs <= |data|
    ensures m == DecodeMap(data, o, k, nCs)
  {
    hide DecodeCs;
    m := [];
    for i := 0 to nCs
      invariant o + (1 + 4 * k) * i <= |data| && m == DecodeMap(data, o, k, i)
    {
      NextRow(1 + 4 * k, i);
      RowsFit(1 + 4 * k, i + 1, nCs);
      DecodeMapStep(data, o, k, i + 1);
      m := m + [DecodeCs(data, o + (1 + 4 * k) * i, k)];
    }
  }

  lemma {:induction false} RowsFit(size: nat, i: nat, n: nat)
    requires i <= n
    ensures size * i <= size * n
  {
    assert size * (n - i) >= 0;
  }
}
