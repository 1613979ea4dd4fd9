/** Which texts inet_pton6 accepts, and what they mean, without reference to the scanner. */
module Inet6Grammar {
  import opened Bytes
  import opened Wrappers
  import opened Inet4
  import opened Inet6

  // ---- the language ----

  predicate AllHex(g: string) { forall k :: 0 <= k < |g| ==> IsHex(g[k]) }

  function HexNumber(g: string): nat
    requires AllHex(g)
  {
    if g == "" then 0 else HexNumber(g[..|g| - 1]) * 16 + HexValue(g[|g| - 1])
  }

  /** Hexadecimal digits of either case, any number of leading zeros, for a number of 16 bits; or nothing, which stands
      for the gap between the two colons of "::". */
  predicate IsGroup(g: string) { AllHex(g) && HexNumber(g) <= 0xffff }

  /** Groups with a colon after each. */
  function Closed(groups: seq<string>): string {
    if groups == [] then "" else Closed(groups[..|groups| - 1]) + groups[|groups| - 1] + ":"
  }

  predicate Separated(groups: seq<string>) {
    (forall k :: 0 <= k < |groups| ==> IsGroup(groups[k])) &&
    forall j, k :: 0 <= j < k < |groups| ==> groups[j] != "" || groups[k] != ""
  }

  function GroupBytes(g: string): seq<byte>
    requires IsGroup(g)
  {
    if g == "" then [] else [HexNumber(g) / 256, HexNumber(g) % 256]
  }

  function AllBytes(groups: seq<string>): seq<byte>
    requires Separated(groups)
  {
    if groups == [] then [] else AllBytes(groups[..|groups| - 1]) + GroupBytes(groups[|groups| - 1])
  }

  /** The number of bytes before the gap, or -1 if there is none. */
  function Gap(groups: seq<string>): (c: int)
    requires Separated(groups)
    ensures -1 <= c <= |AllBytes(groups)|
  {
    if groups == [] then -1
    else if groups[|groups| - 1] == "" then |AllBytes(groups[..|groups| - 1])|
    else Gap(groups[..|groups| - 1])
  }

  /** The end of the text: one more group, nothing, or a dotted quad. */
  ghost predicate IsTail(last: string, tail: seq<byte>) {
    (IsGroup(last) && tail == GroupBytes(last)) || IsQuad(last, tail)
  }

  /** t consists of the groups and the tail, which have out as their bytes, with the gap at byte colon. */
  ghost predicate Spells(t: string, groups: seq<string>, last: string, tail: seq<byte>, out: seq<byte>, colon: int) {
    Separated(groups) && IsTail(last, tail) && t == Closed(groups) + last && out == AllBytes(groups) + tail && |out| <= ADDRESS &&
    colon == Gap(groups)
  }

  ghost predicate Spelled(t: string, out: seq<byte>, colon: int) {
    exists groups: seq<string>, last: string, tail: seq<byte> :: Spells(t, groups, last, tail, out, colon)
  }

  /** A text may begin with a colon only if it begins with two, of which the first is skipped. */
  function Skipped(s: string): Option<nat> {
    if |s| == 0 || s[0] != ':' then Some(0) else if |s| > 1 && s[1] == ':' then Some(1) else None
  }

  /** Sixteen bytes, or fewer and a gap to be filled with zeros. */
  ghost predicate IsAddress(s: string, b: seq<byte>) {
    Skipped(s).Some? && exists out: seq<byte>, colon: int ::
      Spelled(s[Skipped(s).value..], out, colon) && -1 <= colon <= |out| <= ADDRESS && Expand(out, colon) == Some(b)
  }

  // ---- parts of it ----

  lemma {:induction false} SeparatedPrefix(groups: seq<string>, g: string)
    requires Separated(groups) && IsGroup(g) && (g == "" ==> Gap(groups) == -1)
    ensures Separated(groups + [g])
    ensures AllBytes(groups + [g]) == AllBytes(groups) + GroupBytes(g)
    ensures Gap(groups + [g]) == if g == "" then |AllBytes(groups)| else Gap(groups)
    ensures Closed(groups + [g]) == Closed(groups) + g + ":"
  {
    assert (groups + [g])[..|groups|] == groups;
    if g == "" {
      NoGap(groups);
    }
  }

  lemma {:induction false} NoGap(groups: seq<string>)
    requires Separated(groups) && Gap(groups) == -1
    ensures forall k :: 0 <= k < |groups| ==> groups[k] != ""
    decreases |groups|
  {
    if groups != [] {
      NoGap(groups[..|groups| - 1]);
    }
  }

  lemma {:induction false} GapBefore(groups: seq<string>)
    requires Separated(groups) && forall k :: 0 <= k < |groups| ==> groups[k] != ""
    ensures Gap(groups) == -1
    decreases |groups|
  {
    if groups != [] {
      GapBefore(groups[..|groups| - 1]);
    }
  }

  lemma {:induction false} HexPrefix(g: string, n: nat)
    requires AllHex(g) && n <= |g|
    ensures HexNumber(g[..n]) <= HexNumber(g)
    decreases |g|
  {
    if n < |g| {
      var h := g[..|g| - 1];
      assert h[..n] == g[..n];
      HexPrefix(h, n);
    } else {
      assert g[..n] == g;
    }
  }

  lemma {:induction false} NoDigits()
    ensures IsGroup("") && HexNumber("") == 0 && GroupBytes("") == []
  {
  }

  lemma {:induction false} OneMoreDigit(g: string, c: char)
    requires AllHex(g) && IsHex(c)
    ensures AllHex(g + [c]) && HexNumber(g + [c]) == HexNumber(g) * 16 + HexValue(c)
  {
    assert (g + [c])[..|g|] == g;
  }

  /** The digits of an octet, taken as hexadecimal. */
  lemma {:induction false} OctetAsHex(g: string)
    requires (forall k :: 0 <= k < |g| ==> IsDigit(g[k])) && Value(g) <= 255
    ensures AllHex(g)
    ensures var v := Value(g); HexNumber(g) <= if v == 0 then 0 else if v < 10 then 9 else if v < 100 then 153 else 2457
    decreases |g|
  {
    if g != "" {
      OctetAsHex(g[..|g| - 1]);
    }
  }

  // ---- what the scanner accepts is in the language ----

  /** What has been read up to position i. */
  ghost predicate ReadUpTo(s: string, off: nat, i: nat, groups: seq<string>, st: Scan) {
    off <= st.tok <= i <= |s| && ScanOk(st, i) && s[off..st.tok] == Closed(groups) && Separated(groups) &&
    IsGroup(s[st.tok..i]) && st.val == HexNumber(s[st.tok..i]) && (st.saw <==> st.tok < i) &&
    st.out == AllBytes(groups) && st.colon == Gap(groups)
  }

  lemma {:induction false} ReadDigit(s: string, off: nat, i: nat, groups: seq<string>, st: Scan)
    requires ReadUpTo(s, off, i, groups, st) && i < |s| && IsHex(s[i]) && st.val * 16 + HexValue(s[i]) <= 0xffff
    ensures ReadUpTo(s, off, i + 1, groups, st.(saw := true, val := st.val * 16 + HexValue(s[i])))
  {
    hide IsHex, HexValue, HexNumber, Closed, Separated, AllBytes, Gap;
    assert s[st.tok..i + 1] == s[st.tok..i] + [s[i]];
    OneMoreDigit(s[st.tok..i], s[i]);
  }

  lemma {:induction false} ReadColon(s: string, off: nat, i: nat, groups: seq<string>, st: Scan)
    requires ReadUpTo(s, off, i, groups, st) && i < |s| && s[i] == ':' && |st.out| + 2 <= ADDRESS
    requires st.saw
    ensures ReadUpTo(s, off, i + 1, groups + [s[st.tok..i]], Scan(Flush(st.out, st.val), st.colon, false, 0, i + 1))
  {
    hide HexNumber, Closed, Separated, AllBytes, Gap;
    var g := s[st.tok..i];
    SeparatedPrefix(groups, g);
    NoDigits();
    assert s[off..i + 1] == s[off..st.tok] + g + ":";
    assert s[i + 1..i + 1] == "";
  }

  lemma {:induction false} ReadGap(s: string, off: nat, i: nat, groups: seq<string>, st: Scan)
    requires ReadUpTo(s, off, i, groups, st) && i < |s| && s[i] == ':' && !st.saw && st.colon < 0
    ensures ReadUpTo(s, off, i + 1, groups + [""], st.(colon := |st.out|, tok := i + 1))
  {
    hide HexNumber, Closed, Separated, AllBytes, Gap;
    NoDigits();
    SeparatedPrefix(groups, "");
    assert s[off..i + 1] == s[off..st.tok] + "" + ":" && s[st.tok..i] == "";
    assert st.out + [] == st.out;
    assert s[i + 1..i + 1] == "";
  }

  lemma {:induction false} ScanSpells(s: string, off: nat, i: nat, groups: seq<string>, st: Scan)
    requires ReadUpTo(s, off, i, groups, st)
    ensures var r := Scan6(s, i, st); r.Some? ==> Spelled(s[off..], r.value.0, r.value.1)
    decreases |s| - i
  {
    hide AllHex, HexNumber, IsGroup, Closed, Separated, AllBytes, Gap, IsHex, Parse4;
    var r := Scan6(s, i, st);
    if r.None? {
    } else if i == |s| {
      var last := s[st.tok..i];
      assert s[off..] == s[off..st.tok] + last;
      assert Spells(s[off..], groups, last, GroupBytes(last), r.value.0, r.value.1);
    } else if IsHex(s[i]) {
      ReadDigit(s, off, i, groups, st);
      ScanSpells(s, off, i + 1, groups, st.(saw := true, val := st.val * 16 + HexValue(s[i])));
    } else if s[i] == ':' && st.saw {
      ReadColon(s, off, i, groups, st);
      ScanSpells(s, off, i + 1, groups + [s[st.tok..i]], Scan(Flush(st.out, st.val), st.colon, false, 0, i + 1));
    } else if s[i] == ':' {
      ReadGap(s, off, i, groups, st);
      ScanSpells(s, off, i + 1, groups + [""], st.(colon := |st.out|, tok := i + 1));
    } else {
      var last := s[st.tok..];
      var tail := Parse4(last).value;
      Parse4Exactly(last, tail);
      assert s[off..] == s[off..st.tok] + last;
      assert Spells(s[off..], groups, last, tail, r.value.0, r.value.1);
    }
  }

  // ---- and the other way round ----

  /** Reading the first n digits of a token. */
  lemma {:induction false} ScanDigits(s: string, i: nat, g: string, n: nat, st: Scan)
    requires i + |g| <= |s| && s[i..i + |g|] == g && n <= |g| && IsGroup(g) && ScanOk(st, i) && !st.saw && st.val == 0
    ensures HexNumber(g[..n]) <= 0xffff
    ensures Scan6(s, i, st) == Scan6(s, i + n, st.(saw := n > 0, val := HexNumber(g[..n])))
    decreases n
  {
    hide Scan6, IsHex;
    HexPrefix(g, n);
    if n == 0 {
      assert g[..0] == "";
    } else {
      ScanDigits(s, i, g, n - 1, st);
      assert s[i + n - 1] == g[n - 1];
      assert g[..n] == g[..n - 1] + [g[n - 1]];
      OneMoreDigit(g[..n - 1], g[n - 1]);
      HexStep(s, i + n - 1, st.(saw := n > 1, val := HexNumber(g[..n - 1])));
    }
  }

  function Start(off: nat): Scan { Scan([], -1, false, 0, off) }

  /** Reading groups with a colon after each. */
  lemma {:induction false} ScanClosed(s: string, off: nat, groups: seq<string>)
    requires Separated(groups) && |AllBytes(groups)| <= ADDRESS
    requires var i := off + |Closed(groups)|; i <= |s| && s[off..i] == Closed(groups)
    ensures var i := off + |Closed(groups)|; Scan6(s, off, Start(off)) == Scan6(s, i, Scan(AllBytes(groups), Gap(groups), false, 0, i))
    decreases |groups|
  {
    hide Scan6, IsGroup, GroupBytes, Closed, Separated, AllBytes, Gap;
    if groups == [] {
      Nothing();
    } else {
      var m := |groups| - 1;
      var before, g := groups[..m], groups[m];
      LastGroup(groups);
      ClosedParts(s, off, groups);
      ScanClosed(s, off, before);
      var j := off + |Closed(before)|;
      ScanOneClosed(s, j, g, Scan(AllBytes(before), Gap(before), false, 0, j));
    }
  }

  lemma {:induction false} Nothing()
    ensures Closed([]) == "" && AllBytes([]) == [] && Gap([]) == -1
  {
  }

  lemma {:induction false} LastGroup(groups: seq<string>)
    requires groups != [] && Separated(groups)
    ensures var before, g := groups[..|groups| - 1], groups[|groups| - 1];
      Separated(before) && IsGroup(g) && (g == "" ==> Gap(before) == -1) && AllBytes(groups) == AllBytes(before) + GroupBytes(g) &&
      Gap(groups) == if g == "" then |AllBytes(before)| else Gap(before)
  {
    hide AllHex, HexNumber, GroupBytes;
    if groups[|groups| - 1] == "" {
      GapBefore(groups[..|groups| - 1]);
    }
  }

  lemma {:induction false} ClosedParts(s: string, off: nat, groups: seq<string>)
    requires groups != []
    requires var i := off + |Closed(groups)|; i <= |s| && s[off..i] == Closed(groups)
    ensures var before, g := groups[..|groups| - 1], groups[|groups| - 1];
      var j := off + |Closed(before)|;
      off + |Closed(groups)| == j + |g| + 1 && s[off..j] == Closed(before) && s[j..j + |g|] == g && s[j + |g|] == ':'
  {
    var before, g := groups[..|groups| - 1], groups[|groups| - 1];
    assert Closed(groups) == Closed(before) + g + [':'];
    SliceParts(s, off, Closed(before), g, ':');
  }

  lemma {:induction false} SliceParts<T>(s: seq<T>, off: nat, a: seq<T>, b: seq<T>, c: T)
    requires var i := off + |a| + |b|; i < |s| && s[off..i + 1] == a + b + [c]
    ensures var j := off + |a|; s[off..j] == a && s[j..j + |b|] == b && s[j + |b|] == c
  {
    var text := a + b + [c];
    var j := off + |a|;
    var slice := s[off..j + |b| + 1];
    assert forall k :: 0 <= k < |a| ==> s[off..j][k] == slice[k] == text[k];
    forall k | 0 <= k < |b|
      ensures s[j..j + |b|][k] == b[k]
    {
      assert s[j..j + |b|][k] == slice[|a| + k] == text[|a| + k];
    }
    assert s[j + |b|] == slice[|a| + |b|] == text[|a| + |b|];
  }

  lemma {:induction false} ScanOneClosed(s: string, j: nat, g: string, st: Scan)
    requires j + |g| < |s| && s[j..j + |g|] == g && s[j + |g|] == ':' && IsGroup(g) && ScanOk(st, j) && !st.saw && st.val == 0
    requires |st.out| + |GroupBytes(g)| <= ADDRESS && (g == "" ==> st.colon == -1)
    ensures Scan6(s, j, st) ==
      Scan6(s, j + |g| + 1, Scan(st.out + GroupBytes(g), if g == "" then |st.out| else st.colon, false, 0, j + |g| + 1))
  {
    hide Scan6, AllHex, HexNumber;
    if g == "" {
      assert st.out + [] == st.out;
      ColonStep(s, j, st);
    } else {
      ScanDigits(s, j, g, |g|, st);
      assert g[..|g|] == g;
      ColonStep(s, j + |g|, st.(saw := true, val := HexNumber(g)));
    }
  }

  lemma {:induction false} FirstOctet(last: string, b: seq<byte>) returns (g: string)
    requires IsQuad(last, b)
    ensures IsOctet(g, b[0]) && |g| < |last| && last[..|g|] == g && last[|g|] == '.'
  {
    var groups :| IsJoined(last, groups, b, true);
    g := groups[0];
    var g3, g2, g1 := groups[..3], groups[..2], groups[..1];
    assert g3[..2] == g2 && g2[..1] == g1 && g1[..0] == [];
    assert Joined(g1, false) == g + ".";
    assert Joined(g2, false) == g + "." + (g2[1] + ".");
    assert Joined(g3, false) == g + "." + (g2[1] + "." + g3[2] + ".");
    assert last == g + "." + (g2[1] + "." + g3[2] + "." + groups[3]);
  }

  /** Reading the end of the text. */
  lemma {:induction false} ScanTail(s: string, i: nat, last: string, tail: seq<byte>, st: Scan)
    requires i <= |s| && s[i..] == last && IsTail(last, tail) && ScanOk(st, i) && !st.saw && st.val == 0 && st.tok == i
    requires |st.out| + |tail| <= ADDRESS
    ensures Scan6(s, i, st) == Some((st.out + tail, st.colon))
  {
    hide Scan6, AllHex, HexNumber, Parse4;
    if IsQuad(last, tail) {
      var g := FirstOctet(last, tail);
      OctetAsHex(g);
      assert s[i..i + |g|] == last[..|g|];
      ScanDigits(s, i, g, |g|, st);
      assert g[..|g|] == g;
      assert s[i + |g|] == last[|g|];
      Parse4Exactly(last, tail);
      OtherStep(s, i + |g|, st.(saw := true, val := HexNumber(g)));
    } else {
      assert s[i..i + |last|] == last;
      ScanDigits(s, i, last, |last|, st);
      assert last[..|last|] == last;
      ScanAtEnd(s, st.(saw := |last| > 0, val := HexNumber(last)));
      assert st.out + [] == st.out;
    }
  }

  /** The scanner yields bytes and gap exactly if the text spells them. */
  lemma {:induction false} ScanExactly(s: string, off: nat, out: seq<byte>, colon: int)
    requires off <= |s|
    ensures Scan6(s, off, Start(off)) == Some((out, colon)) <==> Spelled(s[off..], out, colon)
  {
    hide Scan6, Closed, Separated, AllBytes, Gap, IsTail, ReadUpTo;
    if Scan6(s, off, Start(off)) == Some((out, colon)) {
      StartRead(s, off);
      ScanSpells(s, off, off, [], Start(off));
    }
    if Spelled(s[off..], out, colon) {
      var groups, last, tail :| Spells(s[off..], groups, last, tail, out, colon);
      var i := off + |Closed(groups)|;
      assert s[off..i] == s[off..][..|Closed(groups)|] == Closed(groups);
      assert s[i..] == s[off..][|Closed(groups)|..] == last;
      ScanClosed(s, off, groups);
      ScanTail(s, i, last, tail, Scan(AllBytes(groups), Gap(groups), false, 0, i));
    }
  }

  lemma {:induction false} StartRead(s: string, off: nat)
    requires off <= |s|
    ensures ReadUpTo(s, off, off, [], Start(off))
  {
    assert s[off..off] == "";
  }

  /** inet_pton6 accepts exactly the texts of addresses, and yields the addresses. */
  lemma {:induction false} Parse6Exactly(s: string, b: seq<byte>)
    ensures Parse6(s) == Some(b) <==> IsAddress(s, b)
  {
    hide Scan6, Spelled, Expand;
    if Skipped(s).Some? {
      var off := Skipped(s).value;
      Scan6Ok(s, off, Start(off));
      var r := Scan6(s, off, Start(off));
      if r.Some? {
        ScanExactly(s, off, r.value.0, r.value.1);
      }
      if IsAddress(s, b) {
        var out, colon :| Spelled(s[off..], out, colon) && -1 <= colon <= |out| <= ADDRESS && Expand(out, colon) == Some(b);
        ScanExactly(s, off, out, colon);
      }
    }
  }
}
