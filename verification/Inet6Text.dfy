/** The texts that inet_ntop4 and inet_ntop6 write, from the bytes of the address. */
module Inet6Text {
  import opened Bytes
  import opened Wrappers
  import opened Inet4
  import opened Inet6
  import opened Inet6Grammar

  // ---- numerals ----

  /** The decimal digits of n, without leading zeros. */
  predicate IsDecimal(g: string, n: nat) {
    g != "" && (forall k :: 0 <= k < |g| ==> IsDigit(g[k])) && Value(g) == n && (|g| > 1 ==> g[0] != '0')
  }

  /** The hexadecimal digits of n, in lower case and without leading zeros. */
  predicate IsHexadecimal(g: string, n: nat) {
    g != "" && (forall k :: 0 <= k < |g| ==> '0' <= g[k] <= '9' || 'a' <= g[k] <= 'f') && AllHex(g) && HexNumber(g) == n && (|g| > 1 ==> g[0] != '0')
  }

  lemma {:induction false} LowerDigit(d: nat)
    requires d < 16
    ensures var c := DigitChar(d); ('0' <= c <= '9' || 'a' <= c <= 'f') && IsHex(c) && HexValue(c) == d && (d > 0 ==> c != '0')
    ensures d < 10 ==> IsDigit(DigitChar(d)) && DigitValue(DigitChar(d)) == d
    ensures DigitChar(d) as int == if d < 10 then '0' as int + d else 'a' as int + d - 10
  {
  }

  lemma {:induction false} NumeralHexadecimal(n: nat)
    ensures IsHexadecimal(Numeral(n, 16), n) && (n > 0 ==> Numeral(n, 16)[0] != '0')
    decreases n
  {
    hide DigitChar, HexValue, IsHex;
    LowerDigit(n % 16);
    var g := Numeral(n, 16);
    if n < 16 {
      assert n % 16 == n;
      NoDigits();
      OneMoreDigit("", DigitChar(n));
      assert g == "" + [DigitChar(n)];
    } else {
      var h := Numeral(n / 16, 16);
      NumeralHexadecimal(n / 16);
      OneMoreDigit(h, DigitChar(n % 16));
      assert g == h + [DigitChar(n % 16)];
    }
  }

  lemma {:induction false} NumeralDecimal(n: nat)
    ensures IsDecimal(Numeral(n, 10), n) && (n > 0 ==> Numeral(n, 10)[0] != '0')
    decreases n
  {
    hide DigitChar;
    LowerDigit(n % 10);
    var g := Numeral(n, 10);
    if n < 10 {
      assert n % 10 == n;
      OneDigit(DigitChar(n));
    } else {
      var h := Numeral(n / 10, 10);
      NumeralDecimal(n / 10);
      assert g == h + [DigitChar(n % 10)] && g[..|g| - 1] == h;
    }
  }

  /** Four decimal numbers separated by dots. */
  ghost predicate IsDotted(s: string, b: seq<byte>)
    requires |b| == 4
  {
    exists d: seq<string> :: |d| == 4 && (forall k :: 0 <= k < 4 ==> IsDecimal(d[k], b[k])) && s == d[0] + "." + d[1] + "." + d[2] + "." + d[3]
  }

  /** The text of inet_ntop4. */
  lemma {:induction false} QuadTextIsDotted(b: seq<byte>)
    requires |b| == 4
    ensures IsDotted(QuadText(b), b)
  {
    hide Numeral, IsDecimal;
    var d := [Numeral(b[0], 10), Numeral(b[1], 10), Numeral(b[2], 10), Numeral(b[3], 10)];
    NumeralDecimal(b[0]);
    NumeralDecimal(b[1]);
    NumeralDecimal(b[2]);
    NumeralDecimal(b[3]);
    assert forall k :: 0 <= k < 4 ==> IsDecimal(d[k], b[k]);
  }

  // ---- the runs of zeros ----

  /** The l words from word b on are zero. */
  predicate ZerosAt(src: seq<byte>, b: int, l: int)
    requires |src| == 16
  {
    0 <= b && b + l <= 8 && forall k :: b <= k < b + l ==> src[2 * k] == 0 && src[2 * k + 1] == 0
  }

  /** The words that "::" stands for: the first of the longest runs of two zeros or more; base is -1 if there is none. */
  ghost predicate IsGap(src: seq<byte>, base: int, len: int)
    requires |src| == 16
  {
    if base == -1 then forall b: int :: !ZerosAt(src, b, 2)
    else
      len >= 2 && ZerosAt(src, base, len) &&
      forall b: int, l: int :: l >= 1 && ZerosAt(src, b, l) ==> l < len || (l == len && base <= b)
  }

  lemma {:induction false} RunOfBytes(src: seq<byte>, b: int, l: int)
    requires |src| == 16 && l >= 1
    ensures ZeroRun(Words(src), b, l) <==> ZerosAt(src, b, l)
  {
    var w := Words(src);
    forall k | 0 <= k < 8
      ensures w[k] == 0 <==> src[2 * k] == 0 && src[2 * k + 1] == 0
    {
    }
    if ZeroRun(w, b, l) {
      forall k | b <= k < b + l
        ensures src[2 * k] == 0 && src[2 * k + 1] == 0
      {
        assert w[k] == 0;
      }
    }
    if ZerosAt(src, b, l) {
      forall k | b <= k < b + l
        ensures w[k] == 0
      {
      }
    }
  }

  lemma {:induction false} GapOfBytes(src: seq<byte>, base: int, len: int)
    requires |src| == 16
    ensures BestRun(Words(src), base, len) <==> IsGap(src, base, len)
  {
    hide Words, ZerosAt, ZeroRun;
    forall b: int, l: int | l >= 1
      ensures ZeroRun(Words(src), b, l) <==> ZerosAt(src, b, l)
    {
      RunOfBytes(src, b, l);
    }
    RunsWithin(Words(src));
  }

  lemma {:induction false} RunsWithin(w: seq<nat>)
    ensures forall b, l :: ZeroRun(w, b, l) ==> l >= 1 && b + l <= |w|
  {
  }

  // ---- the text ----

  /** The groups with a colon between each two. */
  function Listed(groups: seq<string>): string {
    if |groups| == 0 then "" else if |groups| == 1 then groups[0] else groups[0] + ":" + Listed(groups[1..])
  }

  /** The first twelve bytes of an IPv4 address mapped to IPv6. */
  predicate IsV4Mapped(src: seq<byte>)
    requires |src| == 16
  {
    (forall k :: 0 <= k < 10 ==> src[k] == 0) && src[10] == 255 && src[11] == 255
  }

  /** Twelve zeros, and then not a zero word. */
  predicate IsV4Compatible(src: seq<byte>)
    requires |src| == 16
  {
    (forall k :: 0 <= k < 12 ==> src[k] == 0) && (src[12] != 0 || src[13] != 0)
  }

  /** Each group is the numeral of its word. */
  ghost predicate AreGroups(groups: seq<string>, src: seq<byte>)
    requires |src| == 16
  {
    |groups| == 8 && forall k :: 0 <= k < 8 ==> IsHexadecimal(groups[k], src[2 * k] as int * 256 + src[2 * k + 1] as int)
  }

  /** The text of an address: with its last four bytes as a dotted quad for the two kinds of encapsulated IPv4 addresses, and
      else eight groups, of which those in the gap are replaced by "::". */
  ghost predicate IsAddressText(src: seq<byte>, text: string)
    requires |src| == 16
  {
    if IsV4Mapped(src) then exists q: string :: IsDotted(q, src[12..16]) && text == "::ffff:" + q
    else if IsV4Compatible(src) then exists q: string :: IsDotted(q, src[12..16]) && text == "::" + q
    else
      exists groups: seq<string>, base: int, len: int :: AreGroups(groups, src) && IsGap(src, base, len) &&
        text == if base == -1 then Listed(groups) else Listed(groups[..base]) + "::" + Listed(groups[base + len..])
  }

  function Groups(src: seq<byte>): (g: seq<string>)
    requires |src| == 16
    ensures |g| == 8
  {
    seq(8, k requires 0 <= k < 8 => Numeral(Words(src)[k], 16))
  }

  lemma {:induction false} GroupsAre(src: seq<byte>)
    requires |src| == 16
    ensures AreGroups(Groups(src), src)
  {
    hide Numeral, IsHexadecimal;
    forall k | 0 <= k < 8
      ensures IsHexadecimal(Groups(src)[k], src[2 * k] as int * 256 + src[2 * k + 1] as int)
    {
      NumeralHexadecimal(Words(src)[k]);
    }
  }

  /** Groups that follow something: each with a colon before it. */
  function Follow(groups: seq<string>): string { if groups == [] then "" else ":" + Listed(groups) }

  lemma {:induction false} FollowStep(groups: seq<string>, i: nat, j: nat)
    requires i < j <= |groups|
    ensures Follow(groups[i..j]) == ":" + groups[i] + Follow(groups[i + 1..j])
  {
    var s := groups[i..j];
    assert s[0] == groups[i] && s[1..] == groups[i + 1..j];
  }

  /** From word i on, when no more of the gap is to come. */
  lemma {:induction false} TextAfter(src: seq<byte>, base: int, len: int, i: nat)
    requires |src| == 16 && 1 <= i <= 8 && !IsMapped(Words(src), base, len)
    requires base == -1 || (0 <= base && base + len <= i && base + len < 8)
    ensures TextFrom(src, base, len, i) == Follow(Groups(src)[i..])
    decreases 8 - i
  {
    hide Numeral, Words, IsMapped;
    var g := Groups(src);
    if i < 8 {
      TextAfter(src, base, len, i + 1);
      FollowStep(g, i, 8);
      assert g[i..8] == g[i..] && g[i + 1..8] == g[i + 1..];
      assert Piece(src, base, len, i) == ":" + g[i];
    } else {
      assert g[8..] == [];
    }
  }

  /** In the gap nothing is written after its colon. */
  lemma {:induction false} TextInGap(src: seq<byte>, base: int, len: int, i: nat)
    requires |src| == 16 && 0 <= base < i <= base + len <= 8 && !IsMapped(Words(src), base, len)
    ensures TextFrom(src, base, len, i) == TextFrom(src, base, len, base + len)
    decreases base + len - i
  {
    hide Numeral, Words, IsMapped, QuadText;
    if i < base + len {
      TextInGap(src, base, len, i + 1);
      assert Piece(src, base, len, i) == "";
      var t := TextFrom(src, base, len, i + 1);
      assert "" + t == t;
    }
  }

  /** From the gap on. */
  lemma {:induction false} TextFromGap(src: seq<byte>, base: int, len: int)
    requires |src| == 16 && 0 <= base && len >= 2 && base + len <= 8 && !IsMapped(Words(src), base, len)
    ensures TextFrom(src, base, len, base) == "::" + Listed(Groups(src)[base + len..])
  {
    hide Numeral, Words, IsMapped, QuadText;
    var g := Groups(src);
    TextInGap(src, base, len, base + 1);
    assert Piece(src, base, len, base) == ":";
    if base + len < 8 {
      TextAfter(src, base, len, base + len);
      Pair(Listed(g[base + len..]));
    } else {
      assert g[8..] == [];
      assert TextFrom(src, base, len, 8) == ":";
    }
  }

  lemma {:induction false} Pair(t: string)
    ensures ":" + (":" + t) == "::" + t
  {
  }

  /** From word i on, before the gap. */
  lemma {:induction false} TextBefore(src: seq<byte>, base: int, len: int, i: nat)
    requires |src| == 16 && 1 <= i <= base && len >= 2 && base + len <= 8 && !IsMapped(Words(src), base, len)
    ensures TextFrom(src, base, len, i) == Follow(Groups(src)[i..base]) + TextFrom(src, base, len, base)
    decreases base - i
  {
    hide Numeral, Words, IsMapped, QuadText;
    var g, t := Groups(src), TextFrom(src, base, len, base);
    if i < base {
      TextBefore(src, base, len, i + 1);
      FollowStep(g, i, base);
      assert Piece(src, base, len, i) == ":" + g[i];
      Associate(":" + g[i], Follow(g[i + 1..base]), t);
    } else {
      assert g[base..base] == [] && "" + t == t;
    }
  }

  lemma {:induction false} FirstAndFollow(g: seq<string>, j: nat)
    requires 1 <= j <= |g|
    ensures Listed(g[..j]) == g[0] + Follow(g[1..j])
  {
    var s := g[..j];
    assert s[0] == g[0] && s[1..] == g[1..j];
    assert g[0] + "" == g[0];
    Associate(g[0], ":", Listed(g[1..j]));
  }

  /** The text without an encapsulated address. */
  lemma {:induction false} GroupText(src: seq<byte>, base: int, len: int)
    requires |src| == 16 && BestRun(Words(src), base, len) && !IsMapped(Words(src), base, len)
    ensures var g := Groups(src);
      TextFrom(src, base, len, 0) == if base == -1 then Listed(g) else Listed(g[..base]) + "::" + Listed(g[base + len..])
  {
    hide Numeral, Words, IsMapped, QuadText;
    var g := Groups(src);
    if base == -1 {
      assert Piece(src, base, len, 0) == g[0];
      TextAfter(src, base, len, 1);
      FirstAndFollow(g, 8);
      assert g[..8] == g && g[1..8] == g[1..];
    } else {
      TextFromGap(src, base, len);
      var t := "::" + Listed(g[base + len..]);
      if base == 0 {
        assert g[..0] == [] && "" + t == t;
        Associate("", "::", Listed(g[len..]));
      } else {
        assert Piece(src, base, len, 0) == g[0];
        TextBefore(src, base, len, 1);
        FirstAndFollow(g, base);
        Associate(g[0], Follow(g[1..base]), t);
        Associate(Listed(g[..base]), "::", Listed(g[base + len..]));
      }
    }
  }

  lemma {:induction false} PlainZero()
    ensures Numeral(0xffff, 16) == "ffff"
  {
    assert Numeral(0xf, 16) == "f";
    assert Numeral(0xff, 16) == "ff";
    assert Numeral(0xfff, 16) == "fff";
  }

  lemma {:induction false} WordOfBytes(src: seq<byte>, k: nat)
    requires |src| == 16 && k < 8
    ensures Words(src)[k] == 0 <==> src[2 * k] == 0 && src[2 * k + 1] == 0
    ensures Words(src)[k] == 0xffff <==> src[2 * k] == 255 && src[2 * k + 1] == 255
  {
  }

  lemma {:induction false} LeadingZeros(src: seq<byte>, n: nat)
    requires |src| == 16 && n <= 8
    ensures (forall k :: 0 <= k < n ==> Words(src)[k] == 0) <==> (forall k :: 0 <= k < 2 * n ==> src[k] == 0)
  {
    hide Words;
    if n > 0 {
      LeadingZeros(src, n - 1);
      WordOfBytes(src, n - 1);
      var m := 2 * n;
      assert m - 2 == 2 * (n - 1);
    }
  }

  lemma {:induction false} MappedWords(src: seq<byte>)
    requires |src| == 16
    ensures IsV4Mapped(src) <==> (forall k :: 0 <= k < 5 ==> Words(src)[k] == 0) && Words(src)[5] == 0xffff
    ensures IsV4Compatible(src) <==> (forall k :: 0 <= k < 6 ==> Words(src)[k] == 0) && Words(src)[6] != 0
  {
    hide Words;
    LeadingZeros(src, 5);
    LeadingZeros(src, 6);
    WordOfBytes(src, 5);
    WordOfBytes(src, 6);
  }

  /** A run from the first word to a word that is not zero is the best one, when it has half of the words or more. */
  lemma {:induction false} FirstRun(w: seq<nat>, base: int, len: int, n: nat)
    requires |w| == 8 && BestRun(w, base, len) && 4 <= n < 8
    ensures base == 0 && len == n <==> (forall k :: 0 <= k < n ==> w[k] == 0) && w[n] != 0
  {
    if (forall k :: 0 <= k < n ==> w[k] == 0) && w[n] != 0 {
      assert ZeroRun(w, 0, n) && ZeroRun(w, 0, 2);
      OutsideRun(w, base, len, n);
    }
    if base == 0 && len == n && w[n] == 0 {
      assert ZeroRun(w, 0, n + 1);
    }
  }

  /** An encapsulated address is printed for exactly two kinds of addresses. */
  lemma {:induction false} WhenMapped(src: seq<byte>, base: int, len: int)
    requires |src| == 16 && BestRun(Words(src), base, len)
    ensures IsMapped(Words(src), base, len) <==> IsV4Mapped(src) || IsV4Compatible(src)
    ensures IsMapped(Words(src), base, len) ==> (if IsV4Mapped(src) then len == 5 else len == 6)
  {
    hide Words, BestRun, IsV4Mapped, IsV4Compatible;
    MappedWords(src);
    FirstRun(Words(src), base, len, 5);
    FirstRun(Words(src), base, len, 6);
  }

  /** What inet_ntop6 writes. */
  lemma {:induction false} TextIs(src: seq<byte>, base: int, len: int)
    requires |src| == 16 && BestRun(Words(src), base, len)
    ensures IsAddressText(src, TextFrom(src, base, len, 0))
  {
    hide Numeral, Words, QuadText, IsDotted, IsV4Mapped, IsV4Compatible, AreGroups, IsGap, BestRun, Listed;
    WhenMapped(src, base, len);
    if IsMapped(Words(src), base, len) {
      var q := QuadText(src[12..16]);
      QuadTextIsDotted(src[12..16]);
      MappedText(src, len);
    } else {
      GroupText(src, base, len);
      GroupsAre(src);
      GapOfBytes(src, base, len);
    }
  }

  lemma {:induction false} MappedText(src: seq<byte>, len: int)
    requires |src| == 16 && IsMapped(Words(src), 0, len)
    ensures TextFrom(src, 0, len, 0) == (if len == 6 then "::" else "::ffff:") + QuadText(src[12..16])
  {
    hide Numeral, Words, QuadText;
    var q := QuadText(src[12..16]);
    PlainZero();
    MappedStart(src, len);
    assert TextFrom(src, 0, len, 6) == ":" + q;
    if len == 6 {
      Pair(q);
    } else {
      assert Piece(src, 0, len, 5) == ":" + "ffff" == ":ffff";
      assert TextFrom(src, 0, len, 5) == ":ffff" + (":" + q);
      assert ":" + (":ffff" + (":" + q)) == "::ffff:" + q;
    }
  }

  /** The first five words of an encapsulated address. */
  lemma {:induction false} MappedStart(src: seq<byte>, len: int)
    requires |src| == 16 && IsMapped(Words(src), 0, len)
    ensures TextFrom(src, 0, len, 0) == ":" + TextFrom(src, 0, len, len)
  {
    hide Numeral, Words, QuadText;
    NothingBetween(src, len, 1);
    assert Piece(src, 0, len, 0) == ":";
  }

  lemma {:induction false} NothingBetween(src: seq<byte>, len: int, i: nat)
    requires |src| == 16 && IsMapped(Words(src), 0, len) && 1 <= i <= len
    ensures TextFrom(src, 0, len, i) == TextFrom(src, 0, len, len)
    decreases len - i
  {
    hide Numeral, Words, QuadText;
    if i < len {
      NothingBetween(src, len, i + 1);
      assert Piece(src, 0, len, i) == "";
      var t := TextFrom(src, 0, len, i + 1);
      assert "" + t == t;
    }
  }

  lemma {:induction false} SmallNumerals()
    ensures Numeral(192, 10) == "192" && Numeral(0, 10) == "0" && Numeral(2, 10) == "2" && Numeral(1, 10) == "1"
    ensures Numeral(0x2001, 16) == "2001" && Numeral(0xdb8, 16) == "db8" && Numeral(1, 16) == "1" && Numeral(0, 16) == "0"
  {
    assert Numeral(19, 10) == "19";
    assert Numeral(2, 16) == "2" && Numeral(0x20, 16) == "20" && Numeral(0x200, 16) == "200";
    assert Numeral(0xd, 16) == "d" && Numeral(0xdb, 16) == "db";
  }

  const MAPPED: seq<byte> := [0, 0, 0, 0, 0, 0, 0, 0, 0, 0, 255, 255, 192, 0, 2, 1]
  const GAPPED: seq<byte> := [0x20, 1, 0xd, 0xb8, 0, 0, 0, 1, 0, 0, 0, 0, 0, 0, 0, 1]

  /** A mapped IPv4 address. */
  lemma {:induction false} MappedExample(base: int, len: int)
    requires BestRun(Words(MAPPED), base, len)
    ensures TextFrom(MAPPED, base, len, 0) == "::ffff:192.0.2.1"
  {
    hide Numeral, BestRun, TextFrom, Words;
    SmallNumerals();
    WhenMapped(MAPPED, base, len);
    MappedText(MAPPED, len);
    assert MAPPED[12..16] == [192, 0, 2, 1];
  }

  /** A zero word, and then a longer gap. */
  lemma {:induction false} GapExample(base: int, len: int)
    requires BestRun(Words(GAPPED), base, len)
    ensures TextFrom(GAPPED, base, len, 0) == "2001:db8:0:1::1"
  {
    hide Numeral, BestRun, TextFrom, Listed;
    SmallNumerals();
    GappedRun(base, len);
    GroupText(GAPPED, base, len);
    var g := Groups(GAPPED);
    assert g[..4] == ["2001", "db8", "0", "1"] && g[7..] == ["1"];
    ListedOfFour("2001", "db8", "0", "1");
    assert Listed(["1"]) == "1" by { ListedOfOne("1"); }
  }

  lemma {:induction false} ListedOfOne(a: string)
    ensures Listed([a]) == a
  {
  }

  lemma {:induction false} GappedRun(base: int, len: int)
    requires BestRun(Words(GAPPED), base, len)
    ensures base == 4 && len == 3
  {
    var w := Words(GAPPED);
    assert ZeroRun(w, 4, 3) && ZeroRun(w, 4, 2);
    OutsideRun(w, base, len, 0);
    OutsideRun(w, base, len, 1);
    OutsideRun(w, base, len, 3);
    OutsideRun(w, base, len, 7);
  }

  lemma {:induction false} ListedOfFour(a: string, b: string, c: string, d: string)
    ensures Listed([a, b, c, d]) == a + ":" + b + ":" + c + ":" + d
  {
    ListedMore(a, [b, c, d]);
    ListedMore(b, [c, d]);
    ListedMore(c, [d]);
    assert a + ":" + (b + ":" + (c + ":" + d)) == a + ":" + b + ":" + c + ":" + d;
  }

  lemma {:induction false} ListedMore(a: string, rest: seq<string>)
    requires rest != []
    ensures Listed([a] + rest) == a + ":" + Listed(rest)
  {
    assert ([a] + rest)[1..] == rest;
  }

  /** inet_ntop6 into a buffer of 46 characters or more. */
  method PrintAddress(src: seq<byte>, dst: array<char>) returns (ok: bool)
    requires |src| == 16 && dst.Length >= 46
    modifies dst
    ensures ok && IsAddressText(src, TextIn(dst[..]))
  {
    hide Words, Parse6, TextFrom, IsAddressText, BestRun;
    ghost var before := dst[..];
    ok := InetNtop6(src, dst);
    ghost var base: int, len: int :| BestRun(Words(src), base, len) && Printed(TextFrom(src, base, len, 0), before, dst[..], ok);
    ghost var text := TextFrom(src, base, len, 0);
    TextPlain(src, base, len, 0);
    assert dst[..][..|text|] == text;
    TextBeforeNul(dst[..], |text|);
    TextIs(src, base, len);
  }
}
