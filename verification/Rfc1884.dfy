/** The texts of addresses in section 2.2 of RFC 1884, and how those that inet_pton6 accepts differ from them. */
module Rfc1884 {
  import opened Bytes
  import opened Wrappers
  import opened Inet4
  import opened Inet6
  import opened Inet6Grammar

  // ---- the standard ----

  /** One of the pieces between colons: one to four hexadecimal digits. */
  predicate IsField(g: string) { 1 <= |g| <= 4 && AllHex(g) }

  predicate Fields(groups: seq<string>) { forall k :: 0 <= k < |groups| ==> IsField(groups[k]) }

  /** The last piece, of n words: a field, or a dotted quad in place of two. */
  ghost predicate IsEnd(last: string, n: nat) {
    (n == 1 && IsField(last)) || (n == 2 && exists q: seq<byte> :: IsQuad(last, q))
  }

  /** Eight words. */
  ghost predicate FullForm(s: string, groups: seq<string>, last: string, n: nat) {
    Fields(groups) && IsEnd(last, n) && s == Closed(groups) + last && |groups| + n == 8
  }

  /** Fewer than eight words, and "::" in place of the others, which may stand at either end. */
  ghost predicate CompressedForm(s: string, left: seq<string>, right: seq<string>, last: string, n: nat) {
    Fields(left) && Fields(right) && (IsEnd(last, n) || (n == 0 && last == "" && right == [])) &&
    s == (if left == [] then ":" else Closed(left)) + (":" + (Closed(right) + last)) && |left| + |right| + n <= 7
  }

  ghost predicate ValidAddress(s: string) {
    (exists groups: seq<string>, last: string, n: nat :: FullForm(s, groups, last, n)) ||
    exists left: seq<string>, right: seq<string>, last: string, n: nat :: CompressedForm(s, left, right, last, n)
  }

  // ---- the three ways of not being valid ----

  /** One colon at the end. */
  predicate SurplusColon(groups: seq<string>, last: string) {
    last == "" && groups != [] && groups[|groups| - 1] != ""
  }

  /** More than four digits, with leading zeros. */
  predicate LongGroup(groups: seq<string>, last: string) {
    (exists k :: 0 <= k < |groups| && |groups[k]| > 4) || (IsGroup(last) && |last| > 4)
  }

  /** A "::" that stands for nothing. */
  predicate EmptyGap(out: seq<byte>, colon: int) { colon >= 0 && |out| == ADDRESS }

  // ---- texts have one way of being read ----

  predicate NoColon(g: string) { ':' !in g }

  ghost predicate Plain(groups: seq<string>, last: string) {
    NoColon(last) && forall k :: 0 <= k < |groups| ==> NoColon(groups[k])
  }

  lemma {:induction false} ColonBefore(a: string, last: string, b: string, last2: string)
    requires a + last == b + last2 && NoColon(last) && (b == "" || b[|b| - 1] == ':')
    ensures |b| <= |a|
  {
    var k := |b| - 1;
    assert k >= 0 ==> (a + last)[k] == (b + last2)[k] == b[k];
  }

  lemma {:induction false} LastColon(a: string, last: string, b: string, last2: string)
    requires a + last == b + last2 && NoColon(last) && NoColon(last2)
    requires (a == "" || a[|a| - 1] == ':') && (b == "" || b[|b| - 1] == ':')
    ensures a == b && last == last2
  {
    var s := a + last;
    ColonBefore(a, last, b, last2);
    ColonBefore(b, last2, a, last);
    assert a == s[..|a|] && b == (b + last2)[..|b|];
    assert last == s[|a|..] && last2 == (b + last2)[|b|..];
  }

  lemma {:induction false} ClosedEnds(groups: seq<string>)
    ensures groups != [] ==> Closed(groups) != "" && Closed(groups)[|Closed(groups)| - 1] == ':'
    ensures groups == [] ==> Closed(groups) == ""
  {
  }

  /** The groups and the end of a text are determined by it. */
  lemma {:induction false} ReadOneWay(groups: seq<string>, last: string, groups2: seq<string>, last2: string)
    requires Plain(groups, last) && Plain(groups2, last2) && Closed(groups) + last == Closed(groups2) + last2
    ensures groups == groups2 && last == last2
    decreases |groups|
  {
    hide NoColon;
    ClosedEnds(groups);
    ClosedEnds(groups2);
    LastColon(Closed(groups), last, Closed(groups2), last2);
    if groups != [] {
      var h, g, h2, g2 := groups[..|groups| - 1], groups[|groups| - 1], groups2[..|groups2| - 1], groups2[|groups2| - 1];
      assert Closed(groups) == Closed(h) + g + ":" && Closed(groups2) == Closed(h2) + g2 + ":";
      assert Closed(h) + g == Closed(groups)[..|Closed(groups)| - 1];
      assert Closed(h2) + g2 == Closed(groups2)[..|Closed(groups2)| - 1];
      ReadOneWay(h, g, h2, g2);
      assert groups == h + [g] && groups2 == h2 + [g2];
    }
  }

  lemma {:induction false} HexPlain(g: string)
    requires AllHex(g)
    ensures NoColon(g)
  {
  }

  lemma {:induction false} QuadPlain(last: string, q: seq<byte>)
    requires IsQuad(last, q)
    ensures NoColon(last) && !AllHex(last) && last != ""
  {
    var groups :| IsJoined(last, groups, q, true);
    JoinedPlain(groups, true);
    var g := FirstOctet(last, q);
    assert !IsHex(last[|g|]);
  }

  lemma {:induction false} JoinedPlain(groups: seq<string>, open: bool)
    requires forall k :: 0 <= k < |groups| ==> NoColon(groups[k])
    ensures NoColon(Joined(groups, open))
    decreases |groups|
  {
    if groups != [] {
      JoinedPlain(groups[..|groups| - 1], false);
    }
  }

  lemma {:induction false} SpelledPlain(groups: seq<string>, last: string, tail: seq<byte>)
    requires Separated(groups) && IsTail(last, tail)
    ensures Plain(groups, last)
  {
    forall k | 0 <= k < |groups|
      ensures NoColon(groups[k])
    {
      HexPlain(groups[k]);
    }
    if IsQuad(last, tail) {
      QuadPlain(last, tail);
    } else {
      HexPlain(last);
    }
  }

  // ---- sizes ----

  lemma {:induction false} FieldIsGroup(g: string)
    requires IsField(g)
    ensures IsGroup(g) && |GroupBytes(g)| == 2
  {
    HexBound(g);
    assert Power(16, 4) == 0x1_0000 by { assert Power(16, 2) == 256; }
    PowerGrows(|g|, 4);
  }

  lemma {:induction false} PowerGrows(m: nat, n: nat)
    requires m <= n
    ensures Power(16, m) <= Power(16, n)
    decreases n
  {
    if m < n {
      PowerGrows(m, n - 1);
    }
  }

  lemma {:induction false} HexBound(g: string)
    requires AllHex(g)
    ensures HexNumber(g) < Power(16, |g|)
    decreases |g|
  {
    if g != "" {
      HexBound(g[..|g| - 1]);
    }
  }

  lemma {:induction false} FieldsSeparated(groups: seq<string>)
    requires Fields(groups)
    ensures Separated(groups) && |AllBytes(groups)| == 2 * |groups| && Gap(groups) == -1
    decreases |groups|
  {
    hide IsField, IsGroup, GroupBytes;
    forall k | 0 <= k < |groups|
      ensures IsGroup(groups[k]) && groups[k] != ""
    {
      FieldIsGroup(groups[k]);
      NotEmpty(groups[k]);
    }
    if groups != [] {
      FieldsSeparated(groups[..|groups| - 1]);
      FieldIsGroup(groups[|groups| - 1]);
    }
  }

  lemma {:induction false} NotEmpty(g: string)
    requires IsField(g)
    ensures g != "" && AllHex(g)
  {
  }

  lemma {:induction false} EndTail(last: string, n: nat) returns (tail: seq<byte>)
    requires IsEnd(last, n)
    ensures IsTail(last, tail) && |tail| == 2 * n
  {
    if n == 1 {
      FieldIsGroup(last);
      tail := GroupBytes(last);
    } else {
      tail :| IsQuad(last, tail);
    }
  }

  /** The end of a text that is spelled has one or two words, or is empty. */
  lemma {:induction false} TailEnd(last: string, tail: seq<byte>) returns (n: nat)
    requires IsTail(last, tail) && !(IsGroup(last) && |last| > 4)
    ensures |tail| == 2 * n && (if last == "" then n == 0 else IsEnd(last, n))
  {
    if IsQuad(last, tail) {
      QuadPlain(last, tail);
      n := 2;
    } else if last == "" {
      n := 0;
    } else {
      n := 1;
    }
  }

  // ---- groups with a gap ----

  lemma {:induction false} ClosedConcat(a: seq<string>, b: seq<string>)
    ensures Closed(a + b) == Closed(a) + Closed(b)
    decreases |b|
  {
    if b == [] {
      assert a + b == a;
      assert Closed(a) + "" == Closed(a);
    } else {
      var m := |b| - 1;
      assert (a + b)[..|a + b| - 1] == a + b[..m];
      ClosedConcat(a, b[..m]);
      Associate(Closed(a), Closed(b[..m]), b[m]);
      Associate(Closed(a), Closed(b[..m]) + b[m], ":");
    }
  }

  lemma {:induction false} ClosedGap(left: seq<string>, right: seq<string>)
    ensures Closed(left + [""] + right) == Closed(left) + (":" + Closed(right))
  {
    hide Closed;
    ClosedConcat(left + [""], right);
    ClosedConcat(left, [""]);
    OneGap();
    Associate(Closed(left), ":", Closed(right));
  }

  lemma {:induction false} OneGap()
    ensures Closed([""]) == ":"
  {
    assert [""][..0] == [];
  }

  /** Fields on both sides of a gap. */
  lemma {:induction false} GapBetween(left: seq<string>, right: seq<string>)
    requires Fields(left) && Fields(right)
    ensures var all := left + [""] + right;
      Separated(all) && |AllBytes(all)| == 2 * (|left| + |right|) && Gap(all) == 2 * |left|
    decreases |right|
  {
    hide IsField, Separated, AllBytes, Gap, IsGroup, GroupBytes;
    if right == [] {
      FieldsSeparated(left);
      NoDigits();
      SeparatedPrefix(left, "");
      assert left + [""] + right == left + [""];
    } else {
      var m := |right| - 1;
      GapBetween(left, right[..m]);
      FieldIsGroup(right[m]);
      NotEmpty(right[m]);
      SeparatedPrefix(left + [""] + right[..m], right[m]);
      assert left + [""] + right == left + [""] + right[..m] + [right[m]];
    }
  }

  /** Groups that are spelled have at most one gap, with fields around it. */
  lemma {:induction false} SplitAtGap(groups: seq<string>) returns (j: nat)
    requires Separated(groups) && Gap(groups) >= 0
    requires forall k :: 0 <= k < |groups| ==> |groups[k]| <= 4
    ensures j < |groups| && groups[j] == "" && groups == groups[..j] + [""] + groups[j + 1..]
    ensures Fields(groups[..j]) && Fields(groups[j + 1..])
  {
    j := GapIndex(groups);
    assert groups == groups[..j] + [groups[j]] + groups[j + 1..];
  }

  lemma {:induction false} GapIndex(groups: seq<string>) returns (j: nat)
    requires Separated(groups) && Gap(groups) >= 0
    ensures j < |groups| && groups[j] == ""
    decreases |groups|
  {
    if groups[|groups| - 1] == "" {
      j := |groups| - 1;
    } else {
      j := GapIndex(groups[..|groups| - 1]);
    }
  }

  // ---- the first character ----

  lemma {:induction false} FirstOfClosed(groups: seq<string>, rest: string)
    requires groups != [] && groups[0] != ""
    ensures var c := Closed(groups) + rest; c != "" && c[0] == groups[0][0]
    decreases |groups|
  {
    if |groups| > 1 {
      FirstOfClosed(groups[..|groups| - 1], "");
      assert Closed(groups[..|groups| - 1]) + "" == Closed(groups[..|groups| - 1]);
    } else {
      assert Closed(groups[..0]) == "";
    }
  }

  // ---- every valid text is spelled ----

  lemma {:induction false} FullSpelled(s: string, groups: seq<string>, last: string, n: nat) returns (tail: seq<byte>)
    requires FullForm(s, groups, last, n)
    ensures Skipped(s) == Some(0) && s[0..] == s && Spells(s, groups, last, tail, AllBytesOf(groups) + tail, -1)
    ensures |AllBytesOf(groups) + tail| == ADDRESS && |tail| == 2 * n
  {
    tail := EndTail(last, n);
    FieldsSeparated(groups);
    if groups != [] {
      NotEmpty(groups[0]);
      FirstOfClosed(groups, last);
      assert IsHex(groups[0][0]);
    }
  }

  function AllBytesOf(groups: seq<string>): seq<byte> { if Separated(groups) then AllBytes(groups) else [] }

  lemma {:induction false} CompressedSpelled(s: string, left: seq<string>, right: seq<string>, last: string, n: nat) returns (tail: seq<byte>)
    requires CompressedForm(s, left, right, last, n)
    ensures |tail| == 2 * n
    ensures var groups := left + [""] + right; var out := AllBytesOf(groups) + tail;
      Skipped(s).Some? && Spells(s[Skipped(s).value..], groups, last, tail, out, 2 * |left|) && |out| < ADDRESS
  {
    hide IsGroup, GroupBytes, Separated, AllBytes, Gap, Closed, IsField;
    var groups := left + [""] + right;
    if IsEnd(last, n) {
      EndNotEmpty(last, n);
    }
    if last == "" {
      NoDigits();
      tail := [];
    } else {
      tail := EndTail(last, n);
    }
    GapBetween(left, right);
    ClosedGap(left, right);
    var r := Closed(right) + last;
    assert Closed(left) + (":" + Closed(right)) + last == Closed(left) + (":" + r);
    if left == [] {
      ClosedEnds(left);
      assert s == ":" + (":" + r);
      assert s[1..] == ":" + r;
      assert "" + (":" + r) == ":" + r;
    } else {
      NotEmpty(left[0]);
      FirstOfClosed(left, ":" + r);
      assert IsHex(left[0][0]);
      assert s[0..] == s;
    }
  }

  /** inet_pton6 accepts every valid text. */
  lemma {:induction false} ValidIsAccepted(s: string)
    requires ValidAddress(s)
    ensures Parse6(s).Some?
  {
    hide FullForm, CompressedForm, Spells, Parse6, Closed, Separated, AllBytes, Gap;
    if exists groups, last, n: nat :: FullForm(s, groups, last, n) {
      var groups, last, n: nat :| FullForm(s, groups, last, n);
      var tail := FullSpelled(s, groups, last, n);
      SpelledIsAccepted(s, groups, last, tail, AllBytesOf(groups) + tail, -1);
    } else {
      var left, right, last, n: nat :| CompressedForm(s, left, right, last, n);
      var tail := CompressedSpelled(s, left, right, last, n);
      SpelledIsAccepted(s, left + [""] + right, last, tail, AllBytesOf(left + [""] + right) + tail, 2 * |left|);
    }
  }

  /** A text that is spelled is accepted exactly if it has sixteen bytes or a gap. */
  lemma {:induction false} SpelledIsAccepted(s: string, groups: seq<string>, last: string, tail: seq<byte>, out: seq<byte>, colon: int)
    requires Skipped(s).Some? && Spells(s[Skipped(s).value..], groups, last, tail, out, colon)
    ensures -1 <= colon <= |out| <= ADDRESS && Parse6(s) == Expand(out, colon)
    ensures Parse6(s).Some? <==> |out| == ADDRESS || colon >= 0
  {
    hide Scan6, Expand;
    var off := Skipped(s).value;
    assert Spelled(s[off..], out, colon);
    assert -1 <= colon <= |out| by { hide *; SpelledBounds(s[off..], groups, last, tail, out, colon); }
    ScanExactly(s, off, out, colon);
    ExpandAccepts(out, colon);
  }

  lemma {:induction false} SpelledBounds(t: string, groups: seq<string>, last: string, tail: seq<byte>, out: seq<byte>, colon: int)
    requires Spells(t, groups, last, tail, out, colon)
    ensures -1 <= colon <= |out| <= ADDRESS
  {
  }

  lemma {:induction false} ExpandAccepts(out: seq<byte>, colon: int)
    requires |out| <= ADDRESS && -1 <= colon <= |out|
    ensures Expand(out, colon).Some? <==> |out| == ADDRESS || colon >= 0
  {
  }

  // ---- and the exact difference ----

  /** An accepted text is valid exactly if it has no surplus colon at the end, no group of more than four digits, and no
      "::" in an address that is full without it. */
  lemma {:induction false} AcceptedValid(s: string, groups: seq<string>, last: string, tail: seq<byte>, out: seq<byte>, colon: int)
    requires Skipped(s).Some? && Spells(s[Skipped(s).value..], groups, last, tail, out, colon) && Parse6(s).Some?
    ensures ValidAddress(s) <==> !SurplusColon(groups, last) && !LongGroup(groups, last) && !EmptyGap(out, colon)
  {
    hide Parse6, Spells, ValidAddress, SurplusColon, LongGroup;
    SpelledBounds(s[Skipped(s).value..], groups, last, tail, out, colon);
    if ValidAddress(s) {
      ValidHasNone(s, groups, last, tail, out, colon);
    }
    if !SurplusColon(groups, last) && !LongGroup(groups, last) && !EmptyGap(out, colon) {
      if colon == -1 {
        WithoutGap(s, groups, last, tail, out);
      } else {
        WithGap(s, groups, last, tail, out, colon);
      }
    }
  }

  lemma {:induction false} WithoutGap(s: string, groups: seq<string>, last: string, tail: seq<byte>, out: seq<byte>)
    requires Skipped(s).Some? && Spells(s[Skipped(s).value..], groups, last, tail, out, -1) && Parse6(s).Some?
    requires !SurplusColon(groups, last) && !LongGroup(groups, last)
    ensures ValidAddress(s)
  {
    hide Parse6, Closed, IsQuad, AllHex, HexNumber;
    SpelledIsAccepted(s, groups, last, tail, out, -1);
    NoGap(groups);
    assert Fields(groups);
    FieldsSeparated(groups);
    var n := TailEnd(last, tail);
    NoSkip(s, groups, last);
    assert FullForm(s, groups, last, n);
  }

  lemma {:induction false} NoSkip(s: string, groups: seq<string>, last: string)
    requires Skipped(s).Some? && s[Skipped(s).value..] == Closed(groups) + last && groups != [] && IsField(groups[0])
    ensures s == Closed(groups) + last
  {
    NotEmpty(groups[0]);
    FirstOfClosed(groups, last);
    assert IsHex(groups[0][0]);
    var off := Skipped(s).value;
    assert s[off..][0] == s[off];
    assert s[0..] == s;
  }

  lemma {:induction false} WithGap(s: string, groups: seq<string>, last: string, tail: seq<byte>, out: seq<byte>, colon: int)
    requires Skipped(s).Some? && Spells(s[Skipped(s).value..], groups, last, tail, out, colon) && colon >= 0 && |out| < ADDRESS
    requires !SurplusColon(groups, last) && !LongGroup(groups, last)
    ensures ValidAddress(s)
  {
    hide Closed, IsQuad, AllHex, HexNumber, AllBytes, Gap;
    var j := SplitAtGap(groups);
    var left, right := groups[..j], groups[j + 1..];
    GapBetween(left, right);
    ClosedGap(left, right);
    var n := TailEnd(last, tail);
    var t := s[Skipped(s).value..];
    var r := Closed(right) + last;
    assert Closed(left) + (":" + Closed(right)) + last == Closed(left) + (":" + r);
    if left == [] {
      ClosedEnds(left);
      assert t == ":" + r;
      assert t[0] == ':';
      assert s == ":" + t;
    } else {
      NoSkip(s, groups, last);
    }
    assert CompressedForm(s, left, right, last, n);
  }

  lemma {:induction false} ValidHasNone(s: string, groups: seq<string>, last: string, tail: seq<byte>, out: seq<byte>, colon: int)
    requires Skipped(s).Some? && Spells(s[Skipped(s).value..], groups, last, tail, out, colon) && ValidAddress(s)
    ensures !SurplusColon(groups, last) && !LongGroup(groups, last) && !EmptyGap(out, colon)
  {
    hide Closed, IsQuad, AllHex, HexNumber, AllBytes, Gap, Separated;
    SpelledPlain(groups, last, tail);
    if exists groups2, last2, n: nat :: FullForm(s, groups2, last2, n) {
      var groups2, last2, n: nat :| FullForm(s, groups2, last2, n);
      var tail2 := FullSpelled(s, groups2, last2, n);
      SpelledPlain(groups2, last2, tail2);
      ReadOneWay(groups, last, groups2, last2);
      FieldsSeparated(groups);
      NoneInForm(groups, last, n);
    } else {
      var left, right, last2, n: nat :| CompressedForm(s, left, right, last2, n);
      var tail2 := CompressedSpelled(s, left, right, last2, n);
      SpelledPlain(left + [""] + right, last2, tail2);
      ReadOneWay(groups, last, left + [""] + right, last2);
      SameTail(last, tail, tail2);
      if IsEnd(last, n) {
        EndNotEmpty(last, n);
      } else {
        assert groups == left + [""];
      }
    }
  }

  lemma {:induction false} SameTail(last: string, tail: seq<byte>, tail2: seq<byte>)
    requires IsTail(last, tail) && IsTail(last, tail2)
    ensures |tail| == |tail2|
  {
    if IsQuad(last, tail) {
      QuadPlain(last, tail);
    }
    if IsQuad(last, tail2) {
      QuadPlain(last, tail2);
    }
  }

  lemma {:induction false} EndNotEmpty(last: string, n: nat)
    requires IsEnd(last, n)
    ensures last != "" && (IsGroup(last) ==> |last| <= 4)
  {
    if n == 2 {
      var q :| IsQuad(last, q);
      QuadPlain(last, q);
    }
  }

  lemma {:induction false} NoneInForm(groups: seq<string>, last: string, n: nat)
    requires Fields(groups) && IsEnd(last, n)
    ensures !SurplusColon(groups, last) && !LongGroup(groups, last)
  {
    EndNotEmpty(last, n);
  }

  /** A surplus colon can be seen at the end of the text. */
  lemma {:induction false} SurplusColonSeen(t: string, groups: seq<string>, last: string, tail: seq<byte>, out: seq<byte>, colon: int)
    requires Spells(t, groups, last, tail, out, colon)
    ensures SurplusColon(groups, last) <==> |t| >= 2 && t[|t| - 1] == ':' && t[|t| - 2] != ':'
  {
    hide Closed, IsGroup, IsTail, AllBytes, Gap, Separated, NoColon;
    SpelledPlain(groups, last, tail);
    ClosedEnds(groups);
    if last != "" {
      EndCharacter(Closed(groups), last);
    } else if groups != [] {
      assert t == Closed(groups);
      EndGroup(groups);
    }
  }

  lemma {:induction false} EndCharacter(a: string, last: string)
    requires last != "" && NoColon(last)
    ensures var t := a + last; t[|t| - 1] != ':'
  {
    assert last[|last| - 1] in last;
  }

  lemma {:induction false} EndGroup(groups: seq<string>)
    requires groups != [] && forall k :: 0 <= k < |groups| ==> NoColon(groups[k])
    ensures var t, g := Closed(groups), groups[|groups| - 1];
      if g != "" then |t| >= 2 && t[|t| - 2] != ':' else |t| < 2 || t[|t| - 2] == ':'
  {
    var h, g := Closed(groups[..|groups| - 1]), groups[|groups| - 1];
    assert Closed(groups) == h + g + ":";
    ClosedEnds(groups[..|groups| - 1]);
    if g != "" {
      EndCharacter(h, g);
      assert Closed(groups)[|h + g| - 1] == (h + g)[|h + g| - 1];
    } else {
      assert h + g == h;
    }
  }

  lemma {:induction false} FiveDigits()
    ensures AllHex("00001") && HexNumber("00001") == 1
  {
    var g := "00001";
    assert g[..4] == "0000" && g[..4][..3] == "000" && g[..4][..3][..2] == "00" && g[..4][..3][..2][..1] == "0";
    assert HexNumber("0") == HexNumber("") * 16 == 0;
    assert HexNumber("00") == 0;
    assert HexNumber("000") == 0;
    assert HexNumber("0000") == 0;
  }

  /** An accepted text with a group of five digits. */
  lemma {:induction false} LongGroupExample()
    ensures Parse6("00001::").Some? && !ValidAddress("00001::")
  {
    hide ValidAddress, Parse6, HexNumber;
    var s, g := "00001::", ["00001"];
    FiveDigits();
    NoDigits();
    assert g == [] + ["00001"];
    assert Closed(g) == Closed([]) + "00001" + ":";
    SeparatedPrefix([], "00001");
    SeparatedPrefix(g, "");
    var groups := g + [""];
    assert s[0..] == Closed(groups) + "";
    assert Spells(s[0..], groups, "", [], AllBytes(groups) + [], Gap(groups));
    SpelledIsAccepted(s, groups, "", [], AllBytes(groups) + [], Gap(groups));
    assert |groups[0]| > 4;
    AcceptedValid(s, groups, "", [], AllBytes(groups) + [], Gap(groups));
  }

  // ---- "::" in a full address ----

  /** The header of inet_pton6 says that "::" in a full address is silently ignored. It is exactly if only zeros follow
      it; the text is accepted in any case. */
  lemma {:induction false} FullAddressIgnoresGap(s: string, groups: seq<string>, last: string, tail: seq<byte>, out: seq<byte>, colon: int)
    requires Skipped(s).Some? && Spells(s[Skipped(s).value..], groups, last, tail, out, colon) && |out| == ADDRESS && colon >= 0
    ensures Parse6(s).Some?
    ensures Parse6(s) == Some(out) <==> forall k :: colon <= k < ADDRESS ==> out[k] == 0
  {
    hide Parse6, Spells;
    SpelledIsAccepted(s, groups, last, tail, out, colon);
    var r := Expand(out, colon).value;
    assert forall k :: colon <= k < ADDRESS ==> r[k] == 0;
    if forall k :: colon <= k < ADDRESS ==> out[k] == 0 {
      assert r == out;
    }
  }
}
