/** base64.cxx: base64_encode and base64_decode. */
module Base64 {
  import opened Bytes

  const INVALID := 255

  /** The character for six bits: A to Z, a to z, 0 to 9, + and /. */
  function Alphabet(v: nat): (ch: char)
    requires v < 64
  {
    if v < 26 then ('A' as int + v) as char
    else if v < 52 then ('a' as int + v - 26) as char
    else if v < 62 then ('0' as int + v - 52) as char
    else if v == 62 then '+'
    else '/'
  }

  /** ialphabet */
  function Sextet(ch: char): (v: byte)
    ensures v < 64 || v == INVALID
  {
    if 'A' <= ch <= 'Z' then ch as int - 'A' as int
    else if 'a' <= ch <= 'z' then ch as int - 'a' as int + 26
    else if '0' <= ch <= '9' then ch as int - '0' as int + 52
    else if ch == '+' then 62
    else if ch == '/' then 63
    else INVALID
  }

  lemma {:induction false} SextetOfAlphabet(v: nat)
    requires v < 64
    ensures Sextet(Alphabet(v)) == v && Ascii(Alphabet(v))
  {
  }

  // ---- encoding ----

  /** The four characters of three bytes. */
  function Quartet(b0: byte, b1: byte, b2: byte): string {
    [Alphabet(b0 / 4), Alphabet(b0 % 4 * 16 + b1 / 16), Alphabet(b1 % 16 * 4 + b2 / 64), Alphabet(b2 % 64)]
  }

  function Encoded(s: seq<byte>): string {
    if |s| == 0 then ""
    else if |s| == 1 then [Alphabet(s[0] / 4), Alphabet(s[0] % 4 * 16), '=', '=']
    else if |s| == 2 then [Alphabet(s[0] / 4), Alphabet(s[0] % 4 * 16 + s[1] / 16), Alphabet(s[1] % 16 * 4), '=']
    else Quartet(s[0], s[1], s[2]) + Encoded(s[3..])
  }

  /** base64_encode */
  method Base64Encode(input: seq<byte>) returns (output: string)
    ensures output == Encoded(input)
  {
    hide Alphabet, Quartet, Encoded;
    var length := |input|;
    assert input[0..] == input;
    var complete := length - length % 3;
    output := "";
    var i := 0;
    while i < complete
      invariant 0 <= i <= complete && i % 3 == 0 && Encoded(input) == output + Encoded(input[i..])
    {
      EncodeStep(input, i);
      AssociateText(output, Quartet(input[i], input[i + 1], input[i + 2]), Encoded(input[i + 3..]));
      output := output + Quartet(input[i], input[i + 1], input[i + 2]);
      i := i + 3;
    }
    EncodeTail(input[i..]);
    if length % 3 == 1 {
      output := output + [Alphabet(input[length - 1] / 4), Alphabet(input[length - 1] % 4 * 16), '=', '='];
    } else if length % 3 == 2 {
      output := output + [Alphabet(input[length - 2] / 4), Alphabet(input[length - 2] % 4 * 16 + input[length - 1] / 16),
                          Alphabet(input[length - 1] % 16 * 4), '='];
    } else {
      assert output + "" == output;
    }
  }

  lemma {:induction false} EncodeTail(s: seq<byte>)
    requires |s| < 3
    ensures Encoded(s) ==
      if |s| == 0 then "" else if |s| == 1 then [Alphabet(s[0] / 4), Alphabet(s[0] % 4 * 16), '=', '=']
      else [Alphabet(s[0] / 4), Alphabet(s[0] % 4 * 16 + s[1] / 16), Alphabet(s[1] % 16 * 4), '=']
  {
  }

  lemma {:induction false} EncodeStep(input: seq<byte>, i: nat)
    requires i + 3 <= |input|
    ensures Encoded(input[i..]) == Quartet(input[i], input[i + 1], input[i + 2]) + Encoded(input[i + 3..])
  {
    assert input[i..][3..] == input[i + 3..];
  }

  lemma {:induction false} AssociateText(a: string, b: string, c: string)
    ensures a + (b + c) == (a + b) + c
  {
  }

  // ---- decoding ----

  /** The bytes; or NULL; or the code reads outside its string or table, for a text without characters, or when it comes to a
      character beyond ASCII. */
  datatype Decoded = Data(bytes: seq<byte>) | Invalid | Overrun

  predicate Ascii(ch: char) { ch < 128 as char }

  /** (a << 2 | b >> 4) as a byte; an invalid b has all bits set. */
  function First(a: byte, b: byte): byte
    requires a < 64 && (b < 64 || b == INVALID)
  {
    if b == INVALID then a / 4 * 16 + 15 else a * 4 + b / 16
  }

  /** (b << 4 | c >> 2) as a byte. */
  function Second(b: byte, c: byte): byte
    requires (b < 64 || b == INVALID) && (c < 64 || c == INVALID)
  {
    if c == INVALID then b % 16 / 4 * 64 + 63 else b % 16 * 16 + c / 4
  }

  /** (c << 6 | d) as a byte. */
  function Third(c: byte, d: byte): byte
    requires c < 64 && (d < 64 || d == INVALID)
  {
    if d == INVALID then 255 else c % 4 * 64 + d
  }

  /** A group of four characters, looked up one after the other. In the last group only the first is checked if two are
      missing, and so on. The fourth character is never checked. */
  function Group(s: string, i: nat, missing: nat): (r: Decoded)
    requires i + 4 <= |s| && missing <= 2
  {
    var a, b, c, d := Sextet(s[i]), Sextet(s[i + 1]), Sextet(s[i + 2]), Sextet(s[i + 3]);
    if !Ascii(s[i]) then Overrun
    else if a == INVALID then Invalid
    else if !Ascii(s[i + 1]) then Overrun
    else if missing == 2 then Data([First(a, b)])
    else if b == INVALID then Invalid
    else if !Ascii(s[i + 2]) then Overrun
    else if missing == 1 then Data([First(a, b), Second(b, c)])
    else if c == INVALID then Invalid
    else if !Ascii(s[i + 3]) then Overrun
    else Data([First(a, b), Second(b, c), Third(c, d)])
  }

  function Join(a: Decoded, b: Decoded): Decoded {
    if !a.Data? then a else if b.Data? then Data(a.bytes + b.bytes) else b
  }

  function DecodeFrom(s: string, i: nat, missing: nat): Decoded
    requires i + 4 <= |s| && (|s| - i) % 4 == 0 && missing <= 2
    decreases |s| - i
  {
    if i + 4 == |s| then Group(s, i, missing) else Join(Group(s, i, 0), DecodeFrom(s, i + 4, missing))
  }

  function Without(s: string, ch: char): string {
    if |s| == 0 then "" else (if s[0] == ch then "" else [s[0]]) + Without(s[1..], ch)
  }

  /** The position of the first '=', or the length. */
  function FindEquals(s: string): (i: nat)
    ensures i <= |s| && (forall k :: 0 <= k < i ==> s[k] != '=') && (i < |s| ==> s[i] == '=')
  {
    if |s| == 0 || s[0] == '=' then 0 else 1 + FindEquals(s[1..])
  }

  function DecodeText(s: string): Decoded {
    if |s| % 4 != 0 || |s| - FindEquals(s) > 2 then Invalid
    else if |s| == 0 then Overrun
    else DecodeFrom(s, 0, |s| - FindEquals(s))
  }

  /** The text without line breaks. */
  function Stripped(input: string): string { Without(Without(input, '\n'), '\r') }

  function DecodedText(input: string): Decoded { DecodeText(Stripped(input)) }

  method RemoveAll(input: string, ch: char) returns (s: string)
    ensures s == Without(input, ch)
  {
    s := input;
    var pos := 0;
    while pos < |s|
      invariant 0 <= pos <= |s| && Without(input, ch) == s[..pos] + Without(s[pos..], ch)
      decreases |s| - pos
    {
      if s[pos] == ch {
        assert s[pos..][1..] == s[pos + 1..];
        ghost var before := s;
        s := s[..pos] + s[pos + 1..];
        assert s[..pos] == before[..pos] && s[pos..] == before[pos + 1..];
      } else {
        assert s[pos..][1..] == s[pos + 1..];
        assert s[..pos + 1] == s[..pos] + [s[pos]];
        pos := pos + 1;
      }
    }
    assert s[..pos] == s && s[pos..] == "";
  }

  /** base64_decode */
  method Base64Decode(input: string) returns (r: Decoded)
    ensures r == DecodedText(input)
  {
    hide Sextet, Group, FindEquals, Without;
    var s := RemoveAll(input, '\n');
    s := RemoveAll(s, '\r');
    if |s| % 4 != 0 {
      return Invalid;
    }
    var missing := |s| - FindEquals(s);
    if missing > 2 {
      return Invalid;
    }
    if |s| == 0 {
      return Overrun;
    }
    var output := [];
    var i := 0;
    while i < |s| - 4
      invariant 0 <= i <= |s| - 4 && i % 4 == 0
      invariant DecodeFrom(s, 0, missing) == Join(Data(output), DecodeFrom(s, i, missing))
    {
      var g := Group(s, i, 0);
      if !g.Data? {
        return g;
      }
      JoinTwice(output, g, DecodeFrom(s, i + 4, missing));
      output := output + g.bytes;
      i := i + 4;
    }
    var last := Group(s, i, missing);
    r := Join(Data(output), last);
  }

  lemma {:induction false} JoinTwice(a: seq<byte>, g: Decoded, rest: Decoded)
    ensures Join(Data(a), Join(g, rest)) == if g.Data? then Join(Data(a + g.bytes), rest) else g
  {
    if g.Data? && rest.Data? {
      Associate(a, g.bytes, rest.bytes);
    }
  }

  lemma {:induction false} Associate(a: seq<byte>, b: seq<byte>, c: seq<byte>)
    ensures a + (b + c) == (a + b) + c
  {
  }

  // ---- decoding what was encoded ----

  /** How many characters of the last group are padding. */
  function Missing(length: nat): nat { if length % 3 == 0 then 0 else 3 - length % 3 }

  lemma {:induction false} WholeGroup(b0: byte, b1: byte, b2: byte)
    ensures First(b0 / 4, b0 % 4 * 16 + b1 / 16) == b0
    ensures Second(b0 % 4 * 16 + b1 / 16, b1 % 16 * 4 + b2 / 64) == b1
    ensures Third(b1 % 16 * 4 + b2 / 64, b2 % 64) == b2
    ensures First(b0 / 4, b0 % 4 * 16) == b0 && Second(b0 % 4 * 16 + b1 / 16, b1 % 16 * 4) == b1
  {
  }

  lemma {:induction false} GroupOfQuartet(text: string, i: nat, b0: byte, b1: byte, b2: byte)
    requires i + 4 <= |text| && text[i..i + 4] == Quartet(b0, b1, b2)
    ensures Group(text, i, 0) == Data([b0, b1, b2])
  {
    hide Sextet, Alphabet, First, Second, Third;
    var q := text[i..i + 4];
    assert text[i] == q[0] && text[i + 1] == q[1] && text[i + 2] == q[2] && text[i + 3] == q[3];
    SextetOfAlphabet(b0 / 4);
    SextetOfAlphabet(b0 % 4 * 16 + b1 / 16);
    SextetOfAlphabet(b1 % 16 * 4 + b2 / 64);
    SextetOfAlphabet(b2 % 64);
    WholeGroup(b0, b1, b2);
  }

  lemma {:induction false} GroupOfTail(text: string, i: nat, d: seq<byte>)
    requires 1 <= |d| <= 2 && i + 4 <= |text| && text[i..i + 4] == Encoded(d)
    ensures Group(text, i, Missing(|d|)) == Data(d)
  {
    hide Sextet, Alphabet, First, Second, Third, Encoded;
    EncodeTail(d);
    var q := text[i..i + 4];
    assert text[i] == q[0] && text[i + 1] == q[1] && text[i + 2] == q[2] && text[i + 3] == q[3];
    SextetOfAlphabet(d[0] / 4);
    if |d| == 1 {
      SextetOfAlphabet(d[0] % 4 * 16);
      WholeGroup(d[0], 0, 0);
      assert d == [d[0]];
    } else {
      SextetOfAlphabet(d[0] % 4 * 16 + d[1] / 16);
      SextetOfAlphabet(d[1] % 16 * 4);
      WholeGroup(d[0], d[1], 0);
      assert d == [d[0], d[1]];
    }
  }

  lemma {:induction false} EncodedSize(d: seq<byte>)
    ensures |Encoded(d)| == (|d| + 2) / 3 * 4
  {
    hide Quartet;
    if |d| >= 3 {
      QuartetSize(d[0], d[1], d[2]);
      EncodedSize(d[3..]);
      assert (|d| - 3 + 2) / 3 + 1 == (|d| + 2) / 3;
    }
  }

  lemma {:induction false} NextGroup(text: string, i: nat, q: string, rest: string)
    requires i <= |text| && |q| == 4 && text[i..] == q + rest
    ensures i + 4 <= |text| && text[i..i + 4] == q && text[i + 4..] == rest
  {
    assert text[i..i + 4] == text[i..][..4];
    assert text[i + 4..] == text[i..][4..];
  }

  lemma {:induction false} DecodeStep(s: string, i: nat, missing: nat)
    requires i + 4 <= |s| && (|s| - i) % 4 == 0 && missing <= 2
    ensures DecodeFrom(s, i, missing) ==
      if i + 4 == |s| then Group(s, i, missing) else Join(Group(s, i, 0), DecodeFrom(s, i + 4, missing))
  {
  }

  lemma {:induction false} FirstThree(d: seq<byte>)
    requires |d| >= 3
    ensures Encoded(d) == Quartet(d[0], d[1], d[2]) + Encoded(d[3..])
    ensures |d| == 3 ==> Encoded(d[3..]) == ""
  {
    hide Quartet, Alphabet;
  }

  lemma {:induction false} ThreeAndRest<T>(d: seq<T>)
    requires |d| >= 3
    ensures d == [d[0], d[1], d[2]] + d[3..] && (|d| == 3 ==> d == [d[0], d[1], d[2]])
  {
  }

  lemma {:induction false} DecodeEncoded(text: string, i: nat, d: seq<byte>)
    requires i <= |text| && text[i..] == Encoded(d) && |d| >= 1
    ensures i + 4 <= |text| && (|text| - i) % 4 == 0 && DecodeFrom(text, i, Missing(|d|)) == Data(d)
    decreases |d|
  {
    hide Group, Quartet, Encoded, DecodeFrom;
    EncodedSize(d);
    if |d| >= 3 {
      FirstThree(d);
      ThreeAndRest(d);
      assert Missing(|d| - 3) == Missing(|d|);
      EncodedSize(d[3..]);
      var q, rest := Quartet(d[0], d[1], d[2]), Encoded(d[3..]);
      assert |q| == 4 by { QuartetSize(d[0], d[1], d[2]); }
      NextGroup(text, i, q, rest);
      GroupOfQuartet(text, i, d[0], d[1], d[2]);
      DecodeStep(text, i, Missing(|d|));
      if |d| > 3 {
        DecodeEncoded(text, i + 4, d[3..]);
      }
    } else {
      assert text[i..i + 4] == text[i..];
      GroupOfTail(text, i, d);
      DecodeStep(text, i, Missing(|d|));
    }
  }

  lemma {:induction false} QuartetSize(b0: byte, b1: byte, b2: byte)
    ensures |Quartet(b0, b1, b2)| == 4
  {
  }

  predicate Plain(ch: char) { ch != '=' && ch != '\n' && ch != '\r' && Ascii(ch) }

  lemma {:induction false} AlphabetPlain(v: nat)
    requires v < 64
    ensures Plain(Alphabet(v))
  {
  }

  /** Characters of the alphabet, then the padding. */
  lemma {:induction false} EncodedShape(d: seq<byte>)
    ensures var e := Encoded(d); var n := |e| - Missing(|d|);
      n >= 0 && (forall k :: 0 <= k < n ==> Plain(e[k])) && forall k :: n <= k < |e| ==> e[k] == '='
    decreases |d|
  {
    hide Alphabet, Plain;
    if |d| >= 3 {
      EncodedShape(d[3..]);
      AlphabetPlain(d[0] / 4);
      AlphabetPlain(d[0] % 4 * 16 + d[1] / 16);
      AlphabetPlain(d[1] % 16 * 4 + d[2] / 64);
      AlphabetPlain(d[2] % 64);
    } else if |d| > 0 {
      AlphabetPlain(d[0] / 4);
      if |d| == 1 {
        AlphabetPlain(d[0] % 4 * 16);
      } else {
        AlphabetPlain(d[0] % 4 * 16 + d[1] / 16);
        AlphabetPlain(d[1] % 16 * 4);
      }
    }
  }

  lemma {:induction false} WithoutAbsent(s: string, ch: char)
    requires forall k :: 0 <= k < |s| ==> s[k] != ch
    ensures Without(s, ch) == s
  {
    if |s| > 0 {
      WithoutAbsent(s[1..], ch);
    }
  }

  lemma {:induction false} FirstEquals(s: string, n: nat)
    requires n <= |s| && (forall k :: 0 <= k < n ==> s[k] != '=') && (n < |s| ==> s[n] == '=')
    ensures FindEquals(s) == n
    decreases n
  {
    if n > 0 {
      FirstEquals(s[1..], n - 1);
    }
  }

  /** base64_decode undoes base64_encode on everything but the empty string. */
  lemma {:induction false} Base64RoundTrip(d: seq<byte>)
    requires |d| >= 1
    ensures DecodedText(Encoded(d)) == Data(d)
  {
    hide Encoded, DecodeFrom;
    var e := Encoded(d);
    EncodedShape(d);
    EncodedSize(d);
    WithoutAbsent(e, '\n');
    WithoutAbsent(e, '\r');
    FirstEquals(e, |e| - Missing(|d|));
    assert e[0..] == e;
    DecodeEncoded(e, 0, d);
  }

  // ---- which texts are accepted ----

  /** Character k is looked up. */
  predicate IsRead(s: string, missing: nat, k: nat) { k + 4 < |s| || k % 4 <= 3 - missing }

  /** Character k must be in the alphabet. */
  predicate IsChecked(s: string, missing: nat, k: nat) { if k + 4 < |s| then k % 4 < 3 else k % 4 < 3 - missing }

  predicate GoodAt(s: string, missing: nat, k: nat)
    requires k < |s|
  {
    (IsRead(s, missing, k) ==> Ascii(s[k])) && (IsChecked(s, missing, k) ==> Sextet(s[k]) != INVALID)
  }

  /** The first character from i on that is not good is looked up and beyond ASCII. */
  ghost predicate FirstBadBeyond(s: string, missing: nat, i: nat) {
    exists k :: i <= k < |s| && IsRead(s, missing, k) && !Ascii(s[k]) && forall j :: i <= j < k ==> GoodAt(s, missing, j)
  }

  lemma {:induction false} GroupPositions(s: string, i: nat, missing: nat)
    requires i + 4 <= |s| && i % 4 == 0 && |s| % 4 == 0 && missing <= 2
    ensures var g := Group(s, i, if i + 4 == |s| then missing else 0);
      (g.Data? <==> forall k :: i <= k < i + 4 ==> GoodAt(s, missing, k)) &&
      (g == Overrun <==> exists k :: i <= k < i + 4 && IsRead(s, missing, k) && !Ascii(s[k]) && forall j :: i <= j < k ==> GoodAt(s, missing, j))
  {
    hide Group, GoodAt, IsRead, Ascii;
    GroupAt(s, i, missing);
    assert (forall k :: i <= k < i + 4 ==> GoodAt(s, missing, k)) <==>
      GoodAt(s, missing, i) && GoodAt(s, missing, i + 1) && GoodAt(s, missing, i + 2) && GoodAt(s, missing, i + 3);
    if k: nat :| i <= k < i + 4 && BadBeyond(s, missing, k) && forall j :: i <= j < k ==> GoodAt(s, missing, j) {
      assert k == i || k == i + 1 || k == i + 2 || k == i + 3;
    }
    if Group(s, i, if i + 4 == |s| then missing else 0) == Overrun {
      var k := if BadBeyond(s, missing, i) then i else if BadBeyond(s, missing, i + 1) then i + 1
        else if BadBeyond(s, missing, i + 2) then i + 2 else i + 3;
      assert BadBeyond(s, missing, k) && forall j :: i <= j < k ==> GoodAt(s, missing, j);
    }
  }

  /** Character k is looked up behind the table. */
  predicate BadBeyond(s: string, missing: nat, k: nat)
    requires k < |s|
  {
    IsRead(s, missing, k) && !Ascii(s[k])
  }

  lemma {:induction false} GroupAt(s: string, i: nat, missing: nat)
    requires i + 4 <= |s| && i % 4 == 0 && |s| % 4 == 0 && missing <= 2
    ensures var g := Group(s, i, if i + 4 == |s| then missing else 0); var m := missing;
      (g.Data? <==> GoodAt(s, m, i) && GoodAt(s, m, i + 1) && GoodAt(s, m, i + 2) && GoodAt(s, m, i + 3)) &&
      (g == Overrun <==>
        BadBeyond(s, m, i) || (GoodAt(s, m, i) && (BadBeyond(s, m, i + 1) || (GoodAt(s, m, i + 1) && (BadBeyond(s, m, i + 2) ||
          (GoodAt(s, m, i + 2) && BadBeyond(s, m, i + 3)))))))
  {
    hide Sextet, First, Second, Third;
    BeyondInvalid(s[i]);
    BeyondInvalid(s[i + 1]);
    BeyondInvalid(s[i + 2]);
    assert i % 4 == 0 && (i + 1) % 4 == 1 && (i + 2) % 4 == 2 && (i + 3) % 4 == 3;
  }

  lemma {:induction false} BeyondInvalid(ch: char)
    ensures !Ascii(ch) ==> Sextet(ch) == INVALID
  {
  }

  lemma {:induction false} DecodePositions(s: string, i: nat, missing: nat)
    requires i + 4 <= |s| && i % 4 == 0 && |s| % 4 == 0 && missing <= 2
    ensures var r := DecodeFrom(s, i, missing);
      (r.Data? <==> forall k :: i <= k < |s| ==> GoodAt(s, missing, k)) && (r == Overrun <==> FirstBadBeyond(s, missing, i))
    decreases |s| - i
  {
    hide Group, GoodAt, IsRead, Ascii;
    GroupPositions(s, i, missing);
    if i + 4 < |s| {
      DecodePositions(s, i + 4, missing);
      if FirstBadBeyond(s, missing, i + 4) && Group(s, i, 0).Data? {
        var k :| i + 4 <= k < |s| && IsRead(s, missing, k) && !Ascii(s[k]) && forall j :: i + 4 <= j < k ==> GoodAt(s, missing, j);
        assert forall j :: i <= j < k ==> GoodAt(s, missing, j);
      }
      if FirstBadBeyond(s, missing, i) {
        var k :| i <= k < |s| && IsRead(s, missing, k) && !Ascii(s[k]) && forall j :: i <= j < k ==> GoodAt(s, missing, j);
        NotGood(s, missing, k);
      }
    }
  }

  lemma {:induction false} NotGood(s: string, missing: nat, k: nat)
    requires k < |s| && IsRead(s, missing, k) && !Ascii(s[k])
    ensures !GoodAt(s, missing, k)
  {
  }

  /** A text is decoded exactly if, without line breaks, it is not empty, its length is a multiple of four, its first '=' is
      one of its last two characters, and all characters that are looked up or checked allow it. */
  lemma {:induction false} DecodedExactly(input: string)
    ensures var s := Stripped(input); var missing := |s| - FindEquals(s);
      (DecodedText(input).Data? <==> s != "" && |s| % 4 == 0 && missing <= 2 && forall k :: 0 <= k < |s| ==> GoodAt(s, missing, k)) &&
      (DecodedText(input) == Overrun <==> s == "" || (|s| % 4 == 0 && missing <= 2 && FirstBadBeyond(s, missing, 0)))
  {
    hide Stripped, DecodeFrom, GoodAt, IsRead;
    var s := Stripped(input);
    if |s| % 4 == 0 && |s| - FindEquals(s) <= 2 && |s| > 0 {
      DecodePositions(s, 0, |s| - FindEquals(s));
    }
  }

  lemma {:induction false} WithoutBreaks(s: string)
    requires (forall k :: 0 <= k < |s| ==> s[k] != '\n') && forall k :: 0 <= k < |s| ==> s[k] != '\r'
    ensures Stripped(s) == s
  {
    WithoutAbsent(s, '\n');
    WithoutAbsent(s, '\r');
  }

  lemma {:induction false} WithoutBoth(a: string, b: string, ch: char)
    ensures Without(a + b, ch) == Without(a, ch) + Without(b, ch)
    decreases |a|
  {
    if a == "" {
      assert a + b == b;
    } else {
      WithoutBoth(a[1..], b, ch);
      assert (a + b)[1..] == a[1..] + b;
    }
  }

  lemma {:induction false} WithoutOne(ch: char, c: char)
    ensures Without([ch], c) == if ch == c then "" else [ch]
  {
    assert [ch][1..] == "" && Without("", c) == "";
  }

  /** A line break makes no difference; a text that has none is as it was. */
  lemma {:induction false} LineBreaks(a: string, b: string, ch: char)
    ensures ch == '\n' || ch == '\r' ==> Stripped(a + [ch] + b) == Stripped(a + b)
    ensures ch != '\n' && ch != '\r' ==> Stripped(a + [ch] + b) == Stripped(a) + [ch] + Stripped(b)
  {
    hide Without;
    StrippedBoth(a, [ch]);
    StrippedBoth(a + [ch], b);
    StrippedBoth(a, b);
    WithoutOne(ch, '\n');
    WithoutOne(ch, '\r');
    assert Without("", '\r') == "" by { WithoutAbsent("", '\r'); }
    if ch == '\n' || ch == '\r' {
      assert Stripped(a) + "" == Stripped(a);
    }
  }

  lemma {:induction false} StrippedBoth(a: string, b: string)
    ensures Stripped(a + b) == Stripped(a) + Stripped(b)
  {
    hide Without;
    WithoutBoth(a, b, '\n');
    WithoutBoth(Without(a, '\n'), Without(b, '\n'), '\r');
  }

  lemma {:induction false} OneGroup(s: string, missing: nat)
    requires |s| == 4 && missing <= 2
    requires (forall k :: 0 <= k < 4 ==> s[k] != '\n') && (forall k :: 0 <= k < 4 ==> s[k] != '\r')
    requires forall k :: 0 <= k < 4 ==> (s[k] == '=' <==> k >= 4 - missing)
    ensures DecodedText(s) == Group(s, 0, missing)
  {
    hide Group, Without;
    WithoutBreaks(s);
    FirstEquals(s, 4 - missing);
  }

  /** Texts with a character that is not in the alphabet: it counts as a byte of ones. */
  lemma {:induction false} UncheckedExamples()
    ensures DecodedText("AAA!") == Data([0, 0, 255]) && DecodedText("A!==") == Data([15]) && DecodedText("BQ!=") == Data([5, 63])
  {
    hide DecodedText;
    OneGroup("AAA!", 0);
    OneGroup("A!==", 2);
    OneGroup("BQ!=", 1);
  }

  // ---- which of them the encoder writes ----

  lemma {:induction false} AlphabetOfSextet(ch: char)
    requires Sextet(ch) != INVALID
    ensures Sextet(ch) < 64 && Alphabet(Sextet(ch)) == ch
  {
  }

  /** A character is the one for v exactly if it is in the alphabet and stands for v. */
  lemma {:induction false} IsLetter(ch: char, v: nat)
    requires v < 64
    ensures Alphabet(v) == ch <==> Sextet(ch) == v
  {
    hide Sextet, Alphabet;
    SextetOfAlphabet(v);
    if Sextet(ch) == v {
      AlphabetOfSextet(ch);
    }
  }

  /** What a group must be besides being accepted: letters of the alphabet with no bits left over, and the padding. */
  predicate CanonicalGroup(s: string, i: nat, missing: nat)
    requires i + 4 <= |s|
  {
    if missing == 0 then Sextet(s[i + 3]) != INVALID
    else if missing == 1 then Sextet(s[i + 2]) % 4 == 0 && s[i + 3] == '='
    else Sextet(s[i + 1]) % 16 == 0 && s[i + 2] == s[i + 3] == '='
  }

  lemma {:induction false} WholeLetters(a: byte, b: byte, c: byte, d: byte)
    requires a < 64 && b < 64 && c < 64 && (d < 64 || d == INVALID)
    ensures var x, y, z := First(a, b), Second(b, c), Third(c, d);
      x / 4 == a && x % 4 * 16 + y / 16 == b && (d < 64 ==> y % 16 * 4 + z / 64 == c) && z % 64 == if d < 64 then d else 63
  {
  }

  lemma {:induction false} TwoLetters(a: byte, b: byte, c: byte)
    requires a < 64 && b < 64 && (c < 64 || c == INVALID)
    ensures var x, y := First(a, b), Second(b, c);
      x / 4 == a && (c < 64 ==> x % 4 * 16 + y / 16 == b) && (y % 16 * 4 == c <==> c % 4 == 0)
  {
  }

  lemma {:induction false} OneLetter(a: byte, b: byte)
    requires a < 64 && (b < 64 || b == INVALID)
    ensures var x := First(a, b); (b < 64 ==> x / 4 == a) && (x % 4 * 16 == b <==> b % 16 == 0)
  {
  }

  lemma {:induction false} CanonicalOne(s: string, i: nat, missing: nat)
    requires i + 4 <= |s| && missing <= 2 && Group(s, i, missing).Data?
    ensures Encoded(Group(s, i, missing).bytes) == s[i..i + 4] <==> CanonicalGroup(s, i, missing)
  {
    hide Sextet, Alphabet, First, Second, Third, Encoded;
    var a, b, c, d := Sextet(s[i]), Sextet(s[i + 1]), Sextet(s[i + 2]), Sextet(s[i + 3]);
    var bytes := Group(s, i, missing).bytes;
    SextetRange(s[i]);
    if missing == 0 {
      var x, y, z := First(a, b), Second(b, c), Third(c, d);
      WholeLetters(a, b, c, d);
      EncodeWhole(x, y, z);
      IsLetter(s[i], x / 4);
      IsLetter(s[i + 1], x % 4 * 16 + y / 16);
      IsLetter(s[i + 2], y % 16 * 4 + z / 64);
      IsLetter(s[i + 3], z % 64);
      assert s[i..i + 4] == [s[i], s[i + 1], s[i + 2], s[i + 3]];
    } else if missing == 1 {
      var x, y := First(a, b), Second(b, c);
      TwoLetters(a, b, c);
      EncodeTail([x, y]);
      IsLetter(s[i], x / 4);
      IsLetter(s[i + 1], x % 4 * 16 + y / 16);
      IsLetter(s[i + 2], y % 16 * 4);
      assert s[i..i + 4] == [s[i], s[i + 1], s[i + 2], s[i + 3]];
    } else {
      var x := First(a, b);
      OneLetter(a, b);
      EncodeTail([x]);
      IsLetter(s[i], x / 4);
      IsLetter(s[i + 1], x % 4 * 16);
      assert s[i..i + 4] == [s[i], s[i + 1], s[i + 2], s[i + 3]];
    }
  }

  lemma {:induction false} SextetRange(ch: char)
    ensures Sextet(ch) < 64 || Sextet(ch) == INVALID
  {
  }

  lemma {:induction false} EncodeWhole(x: byte, y: byte, z: byte)
    ensures Encoded([x, y, z]) == Quartet(x, y, z)
  {
    hide Alphabet;
    assert [x, y, z][3..] == [];
    assert Encoded([]) == "";
  }

  /** All characters before the padding are in the alphabet, no bits are left over, and the rest is padding. */
  ghost predicate Canonical(s: string, i: nat, missing: nat)
    requires i + 4 <= |s|
  {
    (forall k :: i <= k < |s| - 4 ==> Sextet(s[k]) != INVALID) && CanonicalGroup(s, |s| - 4, missing)
  }

  lemma {:induction false} GroupBytes(s: string, i: nat, missing: nat)
    requires i + 4 <= |s| && missing <= 2 && Group(s, i, missing).Data?
    ensures |Group(s, i, missing).bytes| == 3 - missing
    ensures missing == 0 ==> Sextet(s[i]) != INVALID && Sextet(s[i + 1]) != INVALID && Sextet(s[i + 2]) != INVALID
  {
    hide Sextet, First, Second, Third;
  }

  lemma {:induction false} EncodeThree(g: seq<byte>, rest: seq<byte>)
    requires |g| == 3
    ensures Encoded(g + rest) == Encoded(g) + Encoded(rest)
  {
    hide Alphabet, Quartet;
    var d := g + rest;
    assert d[3..] == rest && g == [g[0], g[1], g[2]];
    EncodeWhole(g[0], g[1], g[2]);
    QuartetSize(g[0], g[1], g[2]);
  }

  lemma {:induction false} CanonicalStep(s: string, i: nat, missing: nat)
    requires i + 8 <= |s| && Group(s, i, 0).Data?
    ensures Canonical(s, i, missing) <==> CanonicalGroup(s, i, 0) && Canonical(s, i + 4, missing)
  {
    hide Sextet, Group;
    GroupBytes(s, i, 0);
    if CanonicalGroup(s, i, 0) && Canonical(s, i + 4, missing) {
      forall k | i <= k < |s| - 4
        ensures Sextet(s[k]) != INVALID
      {
        assert k == i || k == i + 1 || k == i + 2 || k == i + 3 || k >= i + 4;
      }
    }
  }

  lemma {:induction false} CanonicalFrom(s: string, i: nat, missing: nat)
    requires i + 4 <= |s| && (|s| - i) % 4 == 0 && missing <= 2 && DecodeFrom(s, i, missing).Data?
    ensures Encoded(DecodeFrom(s, i, missing).bytes) == s[i..] <==> Canonical(s, i, missing)
    decreases |s| - i
  {
    hide Group, Encoded, CanonicalGroup, Sextet;
    if i + 4 == |s| {
      CanonicalOne(s, i, missing);
      assert s[i..] == s[i..i + 4];
    } else {
      CanonicalStep(s, i, missing);
      hide Canonical;
      CanonicalFrom(s, i + 4, missing);
      CanonicalOne(s, i, 0);
      GroupBytes(s, i, 0);
      var g, rest := Group(s, i, 0).bytes, DecodeFrom(s, i + 4, missing).bytes;
      EncodeThree(g, rest);
      EncodedSize(g);
      FirstFour(s, i, Encoded(g), Encoded(rest));
    }
  }

  lemma {:induction false} FirstFour(s: string, i: nat, a: string, b: string)
    requires i + 4 <= |s| && |a| == 4
    ensures a + b == s[i..] <==> a == s[i..i + 4] && b == s[i + 4..]
  {
    assert s[i..] == s[i..i + 4] + s[i + 4..];
    if a + b == s[i..] {
      assert a == (a + b)[..4] && b == (a + b)[4..];
      assert s[i..][..4] == s[i..i + 4] && s[i..][4..] == s[i + 4..];
    }
  }

  /** Encoding what was decoded gives the text without line breaks exactly if the text is canonical. */
  lemma {:induction false} EncodesBack(input: string)
    requires DecodedText(input).Data?
    ensures var s := Stripped(input);
      |s| >= 4 && (Encoded(DecodedText(input).bytes) == s <==> Canonical(s, 0, |s| - FindEquals(s)))
  {
    hide DecodeFrom, Encoded, Canonical, Stripped;
    var s := Stripped(input);
    CanonicalFrom(s, 0, |s| - FindEquals(s));
    assert s[0..] == s;
  }

  // ---- the code itself, as in RFC 4648, section 4 ----

  const UPPER := "ABCDEFGHIJKLMNOPQRSTUVWXYZ"
  const LOWER := "abcdefghijklmnopqrstuvwxyz"
  const DIGITS := "0123456789"
  const LETTERS := UPPER + LOWER + DIGITS + "+/"

  lemma {:induction false} Uppers(v: nat)
    requires v < 26
    ensures UPPER[v] as int == 65 + v
  {
  }

  lemma {:induction false} Lowers(v: nat)
    requires v < 26
    ensures LOWER[v] as int == 97 + v
  {
  }

  lemma {:induction false} Digits(v: nat)
    requires v < 10
    ensures DIGITS[v] as int == 48 + v
  {
  }

  lemma {:induction false} AlphabetIs(v: nat)
    requires v < 64
    ensures |LETTERS| == 64 && Alphabet(v) == LETTERS[v] && Sextet(LETTERS[v]) == v
  {
    hide UPPER, LOWER, DIGITS;
    Sizes();
    if v < 26 {
      Uppers(v);
    } else if v < 52 {
      Lowers(v - 26);
    } else if v < 62 {
      Digits(v - 52);
    }
  }

  lemma {:induction false} Sizes()
    ensures |UPPER| == 26 && |LOWER| == 26 && |DIGITS| == 10
  {
  }

  /** Three bytes from position i on as one number; what is missing is zero. */
  function Triple(d: seq<byte>, i: nat): nat {
    ByteAt(d, i) * 65536 + ByteAt(d, i + 1) * 256 + ByteAt(d, i + 2)
  }

  function ByteAt(d: seq<byte>, i: nat): byte { if i < |d| then d[i] else 0 }

  /** Digit j, from the left, of a number of four digits in base 64. */
  function SextetOf(n: nat, j: nat): nat
    requires j < 4
  {
    n / (if j == 0 then 262144 else if j == 1 then 4096 else if j == 2 then 64 else 1) % 64
  }

  lemma {:induction false} TripleSextets(x: byte, y: byte, z: byte)
    ensures var n := x * 65536 + y * 256 + z;
      SextetOf(n, 0) == x / 4 && SextetOf(n, 1) == x % 4 * 16 + y / 16 && SextetOf(n, 2) == y % 16 * 4 + z / 64 && SextetOf(n, 3) == z % 64
  {
    hide SextetOf;
    var x0, x1, y0, y1, z0, z1 := x / 4, x % 4, y / 16, y % 16, z / 64, z % 64;
    var n := x * 65536 + y * 256 + z;
    assert n == x0 * 262144 + (x1 * 16 + y0) * 4096 + (y1 * 4 + z0) * 64 + z1;
    DigitsOf(x0, x1 * 16 + y0, y1 * 4 + z0, z1);
  }

  lemma {:induction false} DigitsOf(a: nat, b: nat, c: nat, d: nat)
    requires a < 64 && b < 64 && c < 64 && d < 64
    ensures var n := a * 262144 + b * 4096 + c * 64 + d;
      SextetOf(n, 0) == a && SextetOf(n, 1) == b && SextetOf(n, 2) == c && SextetOf(n, 3) == d
  {
    var n := a * 262144 + b * 4096 + c * 64 + d;
    assert n / 64 == a * 4096 + b * 64 + c;
    assert n / 4096 == a * 64 + b;
    assert n / 262144 == a;
  }

  /** Character k of the text is the letter for the k-th group of six bits of the data, or padding for a byte that is missing. */
  lemma {:induction false} EncodedChar(d: seq<byte>, k: nat)
    requires k < (|d| + 2) / 3 * 4
    ensures |Encoded(d)| == (|d| + 2) / 3 * 4
    ensures Encoded(d)[k] == if k / 4 * 3 + k % 4 > |d| then '=' else LETTERS[SextetOf(Triple(d, k / 4 * 3), k % 4)]
    decreases |d|
  {
    hide Alphabet, SextetOf, Encoded, LETTERS;
    EncodedSize(d);
    if |d| >= 3 && k >= 4 {
      var r := d[3..];
      EncodedChar(r, k - 4);
      assert k / 4 * 3 == (k - 4) / 4 * 3 + 3;
      assert Triple(r, (k - 4) / 4 * 3) == Triple(d, k / 4 * 3);
      FirstThree(d);
    } else {
      FirstQuartet(d, k);
    }
  }

  lemma {:induction false} FirstQuartet(d: seq<byte>, k: nat)
    requires k < 4 && d != []
    ensures |Encoded(d)| >= 4
    ensures Encoded(d)[k] == if k > |d| then '=' else LETTERS[SextetOf(Triple(d, 0), k)]
  {
    hide Alphabet, SextetOf, LETTERS;
    var x, y, z := ByteAt(d, 0), ByteAt(d, 1), ByteAt(d, 2);
    TripleSextets(x, y, z);
    AlphabetIs(x / 4);
    AlphabetIs(x % 4 * 16 + y / 16);
    AlphabetIs(y % 16 * 4 + z / 64);
    AlphabetIs(z % 64);
  }

  /** Eight bits of the twelve that two letters stand for, for byte j of a group. */
  function ByteOf(v: nat, w: nat, j: nat): nat { (v * 64 + w) / (if j == 0 then 16 else if j == 1 then 4 else 1) % 256 }

  lemma {:induction false} GroupByte(s: string, i: nat, missing: nat, j: nat)
    requires i + 4 <= |s| && missing <= 2 && Group(s, i, missing).Data? && j < 3 - missing && Sextet(s[i + j + 1]) != INVALID
    ensures var d := Group(s, i, missing).bytes; |d| == 3 - missing && d[j] == ByteOf(Sextet(s[i + j]), Sextet(s[i + j + 1]), j)
  {
    hide Sextet;
    TwoSextets(Sextet(s[i + j]), Sextet(s[i + j + 1]));
  }

  lemma {:induction false} TwoSextets(v: byte, w: byte)
    requires v < 64 && w < 64
    ensures First(v, w) == ByteOf(v, w, 0) && Second(v, w) == ByteOf(v, w, 1) && Third(v, w) == ByteOf(v, w, 2)
  {
    LowBits(v * 4 + w / 16, w % 16, 16);
    assert v * 64 + w == (v * 4 + w / 16) * 16 + w % 16;
    LowBits(v * 16 + w / 4, w % 4, 4);
    assert v * 64 + w == (v * 16 + w / 4) * 4 + w % 4;
    LowBits(v / 16, v % 16 * 16 + w / 4, 256);
    assert v * 16 + w / 4 == v / 16 * 256 + (v % 16 * 16 + w / 4);
    LowBits(v / 4, v % 4 * 64 + w, 256);
    assert v * 64 + w == v / 4 * 256 + (v % 4 * 64 + w);
  }

  lemma {:induction false} LowBits(q: nat, r: nat, m: nat)
    requires m in {4, 16, 256} && r < m
    ensures (q * m + r) / m == q && (q * m + r) % m == r
  {
  }

  lemma {:induction false} BytesFrom(s: string, i: nat, missing: nat, k: nat)
    requires i + 4 <= |s| && (|s| - i) % 4 == 0 && missing <= 2 && DecodeFrom(s, i, missing).Data?
    requires k < (|s| - i) / 4 * 3 - missing
    ensures var d, at := DecodeFrom(s, i, missing).bytes, i + k / 3 * 4 + k % 3;
      |d| == (|s| - i) / 4 * 3 - missing && Sextet(s[at]) != INVALID &&
      (Sextet(s[at + 1]) != INVALID ==> d[k] == ByteOf(Sextet(s[at]), Sextet(s[at + 1]), k % 3))
    decreases |s| - i
  {
    hide Sextet, Group, ByteOf;
    if k < 3 && i + 4 < |s| {
      BytesOfGroup(s, i, 0, k);
    } else if i + 4 == |s| {
      BytesOfGroup(s, i, missing, k);
    }
    if i + 4 < |s| {
      BytesOfGroup(s, i, 0, 0);
      BytesFrom(s, i + 4, missing, if k < 3 then 0 else k - 3);
    }
  }

  lemma {:induction false} BytesOfGroup(s: string, i: nat, missing: nat, k: nat)
    requires i + 4 <= |s| && missing <= 2 && Group(s, i, missing).Data? && k < 3 - missing
    ensures var d := Group(s, i, missing).bytes;
      |d| == 3 - missing && Sextet(s[i + k]) != INVALID && (Sextet(s[i + k + 1]) != INVALID ==> d[k] == ByteOf(Sextet(s[i + k]), Sextet(s[i + k + 1]), k % 3))
  {
    hide Sextet, ByteOf;
    if Sextet(s[i + k + 1]) != INVALID {
      GroupByte(s, i, missing, k);
      assert k % 3 == k;
    }
  }

  /** Byte k of the data is eight bits of the twelve that its two letters stand for, in a text without line breaks. */
  lemma {:induction false} DecodedByte(input: string, k: nat)
    requires DecodedText(input).Data?
    ensures var s, d := Stripped(input), DecodedText(input).bytes;
      |d| == |s| / 4 * 3 - (|s| - FindEquals(s)) &&
      (k < |d| ==> var at := k / 3 * 4 + k % 3;
        at + 1 < |s| && Sextet(s[at]) != INVALID && (Sextet(s[at + 1]) != INVALID ==> d[k] == ByteOf(Sextet(s[at]), Sextet(s[at + 1]), k % 3)))
  {
    hide Sextet, Group, ByteOf, DecodeFrom, Stripped;
    var s := Stripped(input);
    BytesFrom(s, 0, |s| - FindEquals(s), 0);
    if k < |DecodedText(input).bytes| {
      BytesFrom(s, 0, |s| - FindEquals(s), k);
    }
  }
}
