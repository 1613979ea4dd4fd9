/** Dotted quads: inet_ntop4 and inet_pton4. */
module Inet4 {
  import opened Bytes
  import opened Wrappers

  // ---- printing: "%u" and "%x" without padding ----

  function DigitChar(d: nat): char
    requires d < 16
  {
    "0123456789abcdef"[d]
  }

  /** The digits of n in the given base, most significant first, without leading zeros. */
  function Numeral(n: nat, base: nat): (s: string)
    requires 2 <= base <= 16
    ensures |s| >= 1
    decreases n
  {
    if n < base then [DigitChar(n)] else Numeral(n / base, base) + [DigitChar(n % base)]
  }

  /** The text "%u.%u.%u.%u" of four octets. */
  function QuadText(b: seq<byte>): string
    requires |b| == 4
  {
    Numeral(b[0], 10) + "." + Numeral(b[1], 10) + "." + Numeral(b[2], 10) + "." + Numeral(b[3], 10)
  }

  /** What becomes of a call: the text is in the buffer, or it is too long, or its NUL would go behind the buffer. */
  datatype Outcome = Written | NoSpace | Overrun

  /** The C string at the start of a buffer. */
  function TextIn(s: string): string {
    if s == "" || s[0] == '\0' then "" else [s[0]] + TextIn(s[1..])
  }

  lemma {:induction false} TextBeforeNul(s: string, n: nat)
    requires n < |s| && s[n] == '\0' && '\0' !in s[..n]
    ensures TextIn(s) == s[..n]
    decreases n
  {
    if n > 0 {
      assert s[..n] == [s[0]] + s[1..][..n - 1];
      assert s[..n][0] == s[0];
      TextBeforeNul(s[1..], n - 1);
    }
  }

  /** strcpy to offset o of dst, with the NUL. */
  method StrCpy(dst: array<char>, o: nat, text: string) returns (inside: bool)
    requires o + |text| <= dst.Length
    modifies dst
    ensures inside <==> o + |text| < dst.Length
    ensures dst[o..o + |text|] == text && (inside ==> dst[o + |text|] == '\0')
    ensures forall k :: 0 <= k < dst.Length && !(o <= k <= o + |text|) ==> dst[k] == old(dst[k])
  {
    for k := 0 to |text|
      invariant dst[o..o + k] == text[..k]
      invariant forall j :: 0 <= j < dst.Length && !(o <= j < o + k) ==> dst[j] == old(dst[j])
    {
      dst[o + k] := text[k];
    }
    assert text[..|text|] == text;
    if o + |text| == dst.Length {
      return false;
    }
    dst[o + |text|] := '\0';
    return true;
  }

  /** inet_ntop4 into a buffer from offset o on, whose size is the room that is left. The length without the NUL is
      compared with the size, so that the call stays inside the buffer exactly if the two differ. */
  method InetNtop4(src: seq<byte>, dst: array<char>, o: nat) returns (r: Outcome)
    requires |src| == 4 && o <= dst.Length
    modifies dst
    ensures r != Overrun <==> |QuadText(src)| != dst.Length - o
    ensures r == NoSpace <==> |QuadText(src)| > dst.Length - o
    ensures r == Written ==> TextIn(dst[o..]) == QuadText(src) && Parse4(TextIn(dst[o..])) == Some(src)
    ensures r == Written ==> dst[o..o + |QuadText(src)|] == QuadText(src)
    ensures r == NoSpace ==> dst[..] == old(dst[..])
    ensures forall k :: 0 <= k < o ==> dst[k] == old(dst[k])
  {
    hide QuadText, Parse4;
    var tmp := QuadText(src);
    if |tmp| > dst.Length - o {
      return NoSpace;
    }
    var inside := StrCpy(dst, o, tmp);
    if !inside {
      return Overrun;
    }
    QuadTextPlain(src);
    assert dst[o..][..|tmp|] == dst[o..o + |tmp|];
    TextBeforeNul(dst[o..], |tmp|);
    Parse4OfQuadText(src);
    return Written;
  }

  // ---- reading ----

  predicate IsDigit(ch: char) { '0' <= ch <= '9' }

  function DigitValue(ch: char): nat
    requires IsDigit(ch)
  {
    ch as int - '0' as int
  }

  /** What inet_pton4 makes of the characters of s from position i on, when tmp holds the octets begun
      so far and saw says whether the last of them is still open. */
  function Scan4(s: string, i: nat, tmp: seq<byte>, saw: bool): Option<seq<byte>>
    requires i <= |s| && |tmp| <= 4 && (saw ==> |tmp| >= 1)
    decreases |s| - i
  {
    if i == |s| then
      if |tmp| < 4 then None else Some(tmp)
    else if IsDigit(s[i]) then
      var v := (if saw then tmp[|tmp| - 1] else 0) * 10 + DigitValue(s[i]);
      if v > 255 then None
      else if saw then Scan4(s, i + 1, tmp[|tmp| - 1 := v], true)
      else if |tmp| == 4 then None
      else Scan4(s, i + 1, tmp + [v], true)
    else if s[i] == '.' && saw then
      if |tmp| == 4 then None else Scan4(s, i + 1, tmp, false)
    else None
  }

  function Parse4(s: string): Option<seq<byte>> { Scan4(s, 0, [], false) }

  lemma {:induction false} Scan4Length(s: string, i: nat, tmp: seq<byte>, saw: bool)
    requires i <= |s| && |tmp| <= 4 && (saw ==> |tmp| >= 1)
    ensures var r := Scan4(s, i, tmp, saw); r.Some? ==> |r.value| == 4
    decreases |s| - i
  {
    if i < |s| && IsDigit(s[i]) {
      var v := (if saw then tmp[|tmp| - 1] else 0) * 10 + DigitValue(s[i]);
      if v <= 255 {
        if saw {
          Scan4Length(s, i + 1, tmp[|tmp| - 1 := v], true);
        } else if |tmp| < 4 {
          Scan4Length(s, i + 1, tmp + [v], true);
        }
      }
    } else if i < |s| && s[i] == '.' && saw && |tmp| < 4 {
      Scan4Length(s, i + 1, tmp, false);
    }
  }

  /** Reads src and on success stores four octets at offset o of dst, which is otherwise untouched. */
  method InetPton4(src: string, dst: array<byte>, o: nat) returns (ok: bool)
    requires o + 4 <= dst.Length
    modifies dst
    ensures ok == Parse4(src).Some?
    ensures ok ==> |Parse4(src).value| == 4 && dst[o..o + 4] == Parse4(src).value
    ensures forall k :: 0 <= k < dst.Length && !(ok && o <= k < o + 4) ==> dst[k] == old(dst[k])
  {
    var sawDigit, octets := false, 0;
    var tmp := new byte[4];
    var tp := 0;
    tmp[tp] := 0;
    var i := 0;
    while i < |src|
      invariant 0 <= i <= |src| && 0 <= octets <= 4
      invariant if sawDigit then octets == tp + 1 else octets == tp && tp <= 3 && tmp[tp] == 0
      invariant Parse4(src) == Scan4(src, i, tmp[..octets], sawDigit)
      invariant forall k :: 0 <= k < dst.Length ==> dst[k] == old(dst[k])
    {
      var ch := src[i];
      i := i + 1;
      if IsDigit(ch) {
        var temp := tmp[tp] * 10 + DigitValue(ch);
        if temp > 255 {
          return false;
        }
        ghost var before := tmp[..octets];
        tmp[tp] := temp;
        if !sawDigit {
          octets := octets + 1;
          if octets > 4 {
            return false;
          }
          sawDigit := true;
          assert tmp[..octets] == before + [temp];
        } else {
          assert tmp[..octets] == before[octets - 1 := temp];
        }
      } else if ch == '.' && sawDigit {
        if octets == 4 {
          return false;
        }
        tp := tp + 1;
        ghost var before := tmp[..octets];
        tmp[tp] := 0;
        assert tmp[..octets] == before;
        sawDigit := false;
      } else {
        return false;
      }
    }
    if octets < 4 {
      return false;
    }
    for k := 0 to 4
      invariant tmp[..] == Parse4(src).value
      invariant forall m :: o <= m < o + k ==> dst[m] == tmp[m - o]
      invariant forall m :: 0 <= m < dst.Length && !(o <= m < o + k) ==> dst[m] == old(dst[m])
    {
      dst[o + k] := tmp[k];
    }
    return true;
  }

  // ---- which texts are accepted, and what they mean ----

  /** The number written by a string of decimal digits. */
  function Value(g: string): nat
    requires forall k :: 0 <= k < |g| ==> IsDigit(g[k])
  {
    if g == "" then 0 else Value(g[..|g| - 1]) * 10 + DigitValue(g[|g| - 1])
  }

  /** One or more decimal digits, leading zeros allowed, for the number v. */
  predicate IsOctet(g: string, v: int) {
    g != "" && (forall k :: 0 <= k < |g| ==> IsDigit(g[k])) && Value(g) == v
  }

  /** Groups joined by dots, with a dot at the end unless the last group is open. */
  function Joined(groups: seq<string>, open: bool): string {
    if groups == [] then ""
    else Joined(groups[..|groups| - 1], false) + groups[|groups| - 1] + (if open then "" else ".")
  }

  /** A dotted quad: four decimal numbers up to 255 separated by single dots. */
  ghost predicate IsQuad(s: string, b: seq<byte>) {
    |b| == 4 && exists groups: seq<string> :: IsJoined(s, groups, b, true)
  }

  ghost predicate IsJoined(s: string, groups: seq<string>, b: seq<byte>, open: bool) {
    |groups| == |b| && s == Joined(groups, open) && forall k :: 0 <= k < |b| ==> IsOctet(groups[k], b[k])
  }

  lemma {:induction false} ValueOfPrefix(g: string, k: nat)
    requires k <= |g| && forall k :: 0 <= k < |g| ==> IsDigit(g[k])
    ensures Value(g[..k]) <= Value(g)
    decreases |g|
  {
    if k < |g| {
      var h := g[..|g| - 1];
      assert h[..k] == g[..k];
      ValueOfPrefix(h, k);
    } else {
      assert g[..k] == g;
    }
  }

  /** Scanning a whole octet; n digits of it first. */
  lemma {:induction false} ScanOctet(s: string, i: nat, g: string, n: nat, tmp: seq<byte>)
    requires i + |g| <= |s| && s[i..i + |g|] == g && 1 <= n <= |g|
    requires (forall k :: 0 <= k < |g| ==> IsDigit(g[k])) && Value(g) <= 255 && |tmp| < 4
    ensures Value(g[..n]) <= 255
    ensures Scan4(s, i, tmp, false) == Scan4(s, i + n, tmp + [Value(g[..n])], true)
    decreases n
  {
    ValueOfPrefix(g, n);
    assert s[i + n - 1] == g[n - 1];
    if n == 1 {
      assert g[..1] == [g[0]];
      assert Value(g[..1][..0]) == 0;
    } else {
      ScanOctet(s, i, g, n - 1, tmp);
      assert g[..n][..n - 1] == g[..n - 1];
      assert (tmp + [Value(g[..n - 1])])[|tmp| := Value(g[..n])] == tmp + [Value(g[..n])];
    }
  }

  /** A well-formed text is scanned to the octets it names, whatever part of it has been read. */
  lemma {:induction false} ScanJoined(s: string, i: nat, groups: seq<string>, b: seq<byte>, open: bool)
    requires i <= |s| && 1 <= |groups| && |b| <= 4 && (!open ==> |b| <= 3)
    requires IsJoined(s[..i], groups, b, open)
    ensures Parse4(s) == Scan4(s, i, b, open)
    decreases |groups|, !open
  {
    var m := |groups| - 1;
    var g := groups[m];
    if !open {
      assert s[..i - 1] == Joined(groups, true);
      ScanJoined(s, i - 1, groups, b, true);
      assert s[i - 1] == s[..i][i - 1] == '.';
    } else {
      var j := i - |g|;
      var before := Joined(groups[..m], false);
      assert s[..i] == before + g;
      assert s[..j] == before && s[j..i] == g;
      if m == 0 {
        assert b[..0] == [];
      } else {
        ScanJoined(s, j, groups[..m], b[..m], false);
      }
      ScanOctet(s, j, g, |g|, b[..m]);
      assert g[..|g|] == g && b[..m] + [b[m]] == b;
    }
  }

  lemma {:induction false} OneDigit(c: char)
    requires IsDigit(c)
    ensures IsOctet([c], DigitValue(c))
  {
    assert [c][..0] == "";
    assert Value("") == 0;
  }

  /** Conversely, a successful scan has read a dotted quad. */
  lemma {:induction false} ScanSound(s: string, i: nat, tmp: seq<byte>, saw: bool, groups: seq<string>)
    requires i <= |s| && |tmp| <= 4 && (saw ==> |tmp| >= 1) && (!saw ==> |tmp| <= 3)
    requires IsJoined(s[..i], groups, tmp, saw)
    ensures var r := Scan4(s, i, tmp, saw); r.Some? ==> IsQuad(s, r.value)
    decreases |s| - i
  {
    var r := Scan4(s, i, tmp, saw);
    if i == |s| {
      assert s[..i] == s;
    } else if r.Some? {
      assert s[..i + 1] == s[..i] + [s[i]];
      if s[i] == '.' && saw {
        ScanSound(s, i + 1, tmp, false, groups);
      } else if saw {
        var m := |groups| - 1;
        var g := groups[m] + [s[i]];
        assert g[..|g| - 1] == groups[m];
        var longer := groups[m := g];
        assert longer[..m] == groups[..m];
        ScanSound(s, i + 1, tmp[m := Value(g)], true, longer);
      } else {
        OneDigit(s[i]);
        var longer := groups + [[s[i]]];
        assert longer[..|groups|] == groups;
        ScanSound(s, i + 1, tmp + [DigitValue(s[i])], true, longer);
      }
    }
  }

  /** inet_pton4 accepts exactly the dotted quads, and yields their octets. */
  lemma {:induction false} Parse4Exactly(s: string, b: seq<byte>)
    ensures Parse4(s) == Some(b) <==> IsQuad(s, b)
  {
    if Parse4(s) == Some(b) {
      ScanSound(s, 0, [], false, []);
    }
    if IsQuad(s, b) {
      var groups :| IsJoined(s, groups, b, true);
      assert s[..|s|] == s;
      ScanJoined(s, |s|, groups, b, true);
    }
  }

  // ---- reading back what was printed ----

  lemma {:induction false} DigitCharValue(d: nat)
    requires d < 10
    ensures IsDigit(DigitChar(d)) && DigitValue(DigitChar(d)) == d
  {
  }

  lemma {:induction false} NumeralIsOctet(n: nat)
    ensures IsOctet(Numeral(n, 10), n)
    decreases n
  {
    DigitCharValue(n % 10);
    if n < 10 {
      assert [DigitChar(n)][..0] == "";
    } else {
      NumeralIsOctet(n / 10);
      var s := Numeral(n, 10);
      assert s[..|s| - 1] == Numeral(n / 10, 10);
    }
  }

  lemma {:induction false} QuadTextIsQuad(b: seq<byte>)
    requires |b| == 4
    ensures IsQuad(QuadText(b), b)
  {
    var g := [Numeral(b[0], 10), Numeral(b[1], 10), Numeral(b[2], 10), Numeral(b[3], 10)];
    NumeralIsOctet(b[0]);
    NumeralIsOctet(b[1]);
    NumeralIsOctet(b[2]);
    NumeralIsOctet(b[3]);
    assert g[..3][..2][..1][..0] == [];
    assert Joined(g[..3][..2][..1], false) == g[0] + ".";
    assert Joined(g[..3][..2], false) == g[0] + "." + g[1] + ".";
    assert Joined(g[..3], false) == g[0] + "." + g[1] + "." + g[2] + ".";
    assert IsJoined(QuadText(b), g, b, true);
  }

  lemma {:induction false} DigitPlain(d: nat)
    requires d < 16
    ensures DigitChar(d) != '\0'
  {
  }

  lemma {:induction false} NumeralStep(n: nat, base: nat)
    requires 2 <= base <= 16
    ensures n % base < base && 0 <= n / base
    ensures Numeral(n, base) == (if n < base then "" else Numeral(n / base, base)) + [DigitChar(n % base)]
  {
    if n < base {
      assert n % base == n;
    }
  }

  lemma {:induction false} NumeralPlain(n: nat, base: nat)
    requires base == 10 || base == 16
    ensures '\0' !in Numeral(n, base)
    decreases n
  {
    NumeralStep(n, base);
    var last := n % base;
    DigitPlain(last);
    if n >= base {
      NumeralPlain(n / base, base);
      NotIn(Numeral(n / base, base), [DigitChar(last)], '\0');
    } else {
      assert "" + [DigitChar(last)] == [DigitChar(last)];
    }
  }

  lemma {:induction false} NotIn<T>(a: seq<T>, b: seq<T>, x: T)
    requires x !in a && x !in b
    ensures x !in a + b
  {
  }

  lemma {:induction false} QuadTextPlain(b: seq<byte>)
    requires |b| == 4
    ensures '\0' !in QuadText(b)
  {
    NumeralPlain(b[0], 10);
    NumeralPlain(b[1], 10);
    NumeralPlain(b[2], 10);
    NumeralPlain(b[3], 10);
  }

  /** inet_pton4 undoes inet_ntop4. */
  lemma {:induction false} Parse4OfQuadText(b: seq<byte>)
    requires |b| == 4
    ensures Parse4(QuadText(b)) == Some(b)
  {
    QuadTextIsQuad(b);
    Parse4Exactly(QuadText(b), b);
  }
}
