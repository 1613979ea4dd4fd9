/** IPv6 addresses: inet_ntop6 and inet_pton6. */
module Inet6 {
  import opened Bytes
  import opened Wrappers
  import opened Inet4

  const WORDS := 8
  const ADDRESS := 16

  // ---- printing ----

  function Word(hi: nat, lo: nat): nat { hi * 256 + lo }

  /** The address as eight 16-bit words. */
  function Words(src: seq<byte>): (w: seq<nat>)
    requires |src| == ADDRESS
    ensures |w| == WORDS && forall i :: 0 <= i < WORDS ==> w[i] == Word(src[2 * i], src[2 * i + 1])
  {
    seq(WORDS, i requires 0 <= i < WORDS => Word(src[2 * i], src[2 * i + 1]))
  }

  ghost predicate ZeroRun(w: seq<nat>, base: int, len: int) {
    0 <= base && 1 <= len && base + len <= |w| && forall k :: base <= k < base + len ==> w[k] == 0
  }

  /** No zero run inside the first e words beats the run at base: it is the leftmost longest. */
  ghost predicate Beats(w: seq<nat>, base: int, len: int, e: int) {
    forall b, l :: ZeroRun(w, b, l) && b + l <= e ==> l < len || (l == len && base <= b)
  }

  /** The run of zero words that "::" stands for: the leftmost longest one, if it has two words or more. */
  ghost predicate BestRun(w: seq<nat>, base: int, len: int) {
    if base == -1 then forall b :: !ZeroRun(w, b, 2)
    else len >= 2 && ZeroRun(w, base, len) && Beats(w, base, len, |w|)
  }

  lemma {:induction false} BestRunUnique(w: seq<nat>, base: int, len: int, base2: int, len2: int)
    requires BestRun(w, base, len) && BestRun(w, base2, len2)
    ensures base == base2 && (base != -1 ==> len == len2)
  {
    if base != -1 {
      assert ZeroRun(w, base, 2);
    }
    if base2 != -1 {
      assert ZeroRun(w, base2, 2);
    }
  }

  /** An encapsulated IPv4 address is printed as a dotted quad. */
  predicate IsMapped(w: seq<nat>, base: int, len: int)
    requires |w| == WORDS
  {
    base == 0 && (len == 6 || (len == 5 && w[5] == 0xffff))
  }

  predicate InRun(base: int, len: int, i: nat) { base != -1 && base <= i < base + len }

  /** What the formatting loop writes for word i; from an encapsulated address the last two words at once. */
  function Piece(src: seq<byte>, base: int, len: int, i: nat): string
    requires |src| == ADDRESS && i < WORDS
  {
    if InRun(base, len, i) then
      if i == base then ":" else ""
    else
      (if i != 0 then ":" else "") +
      (if i == 6 && IsMapped(Words(src), base, len) then QuadText(src[12..16]) else Numeral(Words(src)[i], 16))
  }

  /** What is written from word i on. */
  function TextFrom(src: seq<byte>, base: int, len: int, i: nat): string
    requires |src| == ADDRESS && i <= WORDS
    decreases WORDS - i, src
  {
    if i == WORDS then
      if base != -1 && base + len == WORDS then ":" else ""
    else if i == 6 && IsMapped(Words(src), base, len) then
      Piece(src, base, len, i)
    else
      Piece(src, base, len, i) + TextFrom(src, base, len, i + 1)
  }

  method FindBestRun(words: seq<nat>) returns (base: int, len: int)
    requires |words| == WORDS
    ensures BestRun(words, base, len)
  {
    base, len := -1, 0;
    var curBase, curLen := -1, 0;
    for i := 0 to WORDS
      invariant curBase != -1 ==> ZeroRun(words, curBase, curLen) && curBase + curLen == i
      invariant curBase > 0 ==> words[curBase - 1] != 0
      invariant curBase == -1 && i > 0 ==> words[i - 1] != 0
      invariant base == -1 ==> len == 0
      invariant base != -1 ==> ZeroRun(words, base, len) && base + len <= (if curBase == -1 then i else curBase)
      invariant Beats(words, base, len, if curBase == -1 then i else curBase)
    {
      if words[i] == 0 {
        if curBase == -1 {
          curBase, curLen := i, 1;
        } else {
          curLen := curLen + 1;
        }
      } else {
        if curBase != -1 {
          Closing(words, base, len, curBase, curLen, i + 1);
          if base == -1 || curLen > len {
            base, len := curBase, curLen;
          }
          curBase := -1;
        }
      }
    }
    if curBase != -1 {
      Closing(words, base, len, curBase, curLen, WORDS);
      if base == -1 || curLen > len {
        base, len := curBase, curLen;
      }
    }
    if base != -1 && len < 2 {
      forall b
        ensures !ZeroRun(words, b, 2)
      {
        assert ZeroRun(words, b, 2) ==> 2 <= len;
      }
      base := -1;
    }
  }

  lemma {:induction false} OutsideRun(w: seq<nat>, b: int, l: int, k: int)
    requires ZeroRun(w, b, l) && 0 <= k < |w| && w[k] != 0
    ensures !(b <= k < b + l)
  {
    assert forall m :: b <= m < b + l ==> w[m] == 0;
  }

  /** When a run ends, any zero run seen so far lies before it or inside it. */
  lemma {:induction false} Closing(w: seq<nat>, base: int, len: nat, curBase: int, curLen: int, e: int)
    requires ZeroRun(w, curBase, curLen) && (curBase == 0 || w[curBase - 1] != 0)
    requires Beats(w, base, len, curBase) && (if base == -1 then len == 0 else base <= curBase)
    requires e <= |w| && (e == curBase + curLen || (e == curBase + curLen + 1 && w[e - 1] != 0))
    ensures if base == -1 || curLen > len then Beats(w, curBase, curLen, e) else Beats(w, base, len, e)
  {
    forall b, l | ZeroRun(w, b, l) && b + l <= e
      ensures b + l <= curBase || (curBase <= b && l <= curLen && (l == curLen ==> b == curBase))
    {
      if curBase > 0 {
        OutsideRun(w, b, l, curBase - 1);
      }
      if e > curBase + curLen {
        OutsideRun(w, b, l, e - 1);
      }
    }
  }

  // ---- the printer ----

  lemma {:induction false} NumeralLength(n: nat, base: nat, digits: nat)
    requires base == 10 || base == 16
    requires digits >= 1 && n < Power(base, digits)
    ensures |Numeral(n, base)| <= digits
    decreases digits
  {
    if n >= base {
      assert digits > 1;
      NumeralLength(n / base, base, digits - 1);
    }
  }

  function Power(base: nat, n: nat): nat {
    if n == 0 then 1 else base * Power(base, n - 1)
  }

  lemma {:induction false} NumeralLengths(n: nat)
    ensures n <= 0xffff ==> |Numeral(n, 16)| <= 4
    ensures n <= 255 ==> |Numeral(n, 10)| <= 3
  {
    assert Power(16, 1) == 16 && Power(16, 2) == 256 && Power(16, 3) == 4096 && Power(16, 4) == 65536;
    assert Power(10, 1) == 10 && Power(10, 2) == 100 && Power(10, 3) == 1000;
    if n <= 0xffff {
      NumeralLength(n, 16, 4);
    }
    if n <= 255 {
      NumeralLength(n, 10, 3);
    }
  }

  lemma {:induction false} QuadLength(b: seq<byte>)
    requires |b| == 4
    ensures |QuadText(b)| <= 15
  {
    NumeralLengths(b[0]);
    NumeralLengths(b[1]);
    NumeralLengths(b[2]);
    NumeralLengths(b[3]);
  }

  /** The text fits the local buffer of 46 characters, NUL included. */
  lemma {:induction false} TextLength(src: seq<byte>, base: int, len: int, i: nat)
    requires |src| == ADDRESS && i <= WORDS
    ensures |TextFrom(src, base, len, i)| <= if i == 0 then 45 else 5 * (WORDS - i) + 6
    decreases WORDS - i
  {
    hide Numeral, QuadText, Words;
    if i < WORDS {
      TextLength(src, base, len, i + 1);
      NumeralLengths(Words(src)[i]);
      QuadLength(src[12..16]);
    }
  }

  method LoadWords(src: seq<byte>) returns (words: seq<nat>)
    requires |src| == ADDRESS
    ensures words == Words(src)
  {
    words := [0, 0, 0, 0, 0, 0, 0, 0];
    for i := 0 to ADDRESS
      invariant |words| == WORDS
      invariant forall k :: 0 <= k < WORDS ==>
        words[k] == Word(if 2 * k < i then src[2 * k] else 0, if 2 * k + 1 < i then src[2 * k + 1] else 0)
    {
      // the byte is or-ed into bits that are still zero
      words := words[i / 2 := words[i / 2] + if i % 2 == 0 then Word(src[i], 0) else src[i]];
    }
  }

  /** tmp begins with text. */
  ghost predicate BeginsWith(tmp: array<char>, text: string)
    reads tmp
  {
    |text| <= tmp.Length && tmp[..|text|] == text
  }

  /** Writes text at tp, behind what is there. */
  method Append(tmp: array<char>, ghost done: string, tp: nat, text: string) returns (next: nat)
    requires BeginsWith(tmp, done) && tp == |done| && tp + |text| < tmp.Length
    modifies tmp
    ensures BeginsWith(tmp, done + text) && next == tp + |text|
  {
    var inside := StrCpy(tmp, tp, text);
    next := tp + |text|;
    assert tmp[..tp] == done;
    assert tmp[..next] == tmp[..tp] + tmp[tp..next];
  }

  /** inet_ntop4 at tp; the room left is more than it needs. */
  method AppendQuad(tmp: array<char>, ghost done: string, tp: nat, b: seq<byte>) returns (next: nat)
    requires |b| == 4 && BeginsWith(tmp, done) && tp == |done| && tp + |QuadText(b)| < tmp.Length
    modifies tmp
    ensures BeginsWith(tmp, done + QuadText(b)) && next == tp + |QuadText(b)|
  {
    hide QuadText, Parse4;
    var r := InetNtop4(b, tmp, tp);
    next := tp + |QuadText(b)|;
    assert tmp[..tp] == done;
    assert tmp[..next] == tmp[..tp] + tmp[tp..next];
  }

  /** One turn of the formatting loop; stop is its break after an encapsulated address. */
  method FormatWord(src: seq<byte>, words: seq<nat>, base: int, len: int, i: nat, tmp: array<char>, ghost done: string, tp: nat)
      returns (next: nat, stop: bool)
    requires |src| == ADDRESS && words == Words(src) && i < WORDS
    requires BeginsWith(tmp, done) && tp == |done| && tp + |Piece(src, base, len, i)| < tmp.Length
    modifies tmp
    ensures BeginsWith(tmp, done + Piece(src, base, len, i)) && next == tp + |Piece(src, base, len, i)|
    ensures stop == (i == 6 && IsMapped(words, base, len))
  {
    hide Numeral, QuadText, Words, Parse4;
    next, stop := tp, false;
    assert done + "" == done;
    if base != -1 && i >= base && i < base + len {
      if i == base {
        next := Append(tmp, done, tp, ":");
      }
      return;
    }
    ghost var sep := if i != 0 then ":" else "";
    if i != 0 {
      next := Append(tmp, done, tp, ":");
    }
    if i == 6 && base == 0 && (len == 6 || (len == 5 && words[5] == 0xffff)) {
      next := AppendQuad(tmp, done + sep, next, src[12..16]);
      Associate(done, sep, QuadText(src[12..16]));
      return next, true;
    }
    next := Append(tmp, done + sep, next, Numeral(words[i], 16));
    Associate(done, sep, Numeral(words[i], 16));
  }

  lemma {:induction false} Associate(a: string, b: string, c: string)
    ensures (a + b) + c == a + (b + c)
  {
  }

  lemma {:induction false} TextFromStep(src: seq<byte>, base: int, len: int, i: nat)
    requires |src| == ADDRESS && i < WORDS
    ensures var stop := i == 6 && IsMapped(Words(src), base, len);
      TextFrom(src, base, len, i) == Piece(src, base, len, i) + (if stop then "" else TextFrom(src, base, len, i + 1)) &&
      (stop ==> base == 0 && len <= 6)
  {
    hide Piece, Words;
    assert Piece(src, base, len, i) + "" == Piece(src, base, len, i);
  }

  lemma {:induction false} TextFromEnd(src: seq<byte>, base: int, len: int)
    requires |src| == ADDRESS
    ensures TextFrom(src, base, len, WORDS) == if base != -1 && base + len == WORDS then ":" else ""
  {
  }

  /** The formatting loop and the NUL, in a buffer of 46 characters. */
  method FormatWords(src: seq<byte>, words: seq<nat>, base: int, len: int, tmp: array<char>) returns (tp: nat)
    requires |src| == ADDRESS && words == Words(src) && tmp.Length == 46
    modifies tmp
    ensures BeginsWith(tmp, TextFrom(src, base, len, 0) + ['\0']) && tp == |TextFrom(src, base, len, 0)| + 1
  {
    hide Piece, Words, TextFrom, IsMapped;
    TextLength(src, base, len, 0);
    ghost var text := "";
    tp := 0;
    var i, stop := 0, false;
    while i < WORDS && !stop
      invariant 0 <= i <= WORDS && BeginsWith(tmp, text) && tp == |text|
      invariant text + (if stop then "" else TextFrom(src, base, len, i)) == TextFrom(src, base, len, 0)
      invariant stop ==> base == 0 && len <= 6
      decreases WORDS - i
    {
      TextFromStep(src, base, len, i);
      ghost var piece := Piece(src, base, len, i);
      tp, stop := FormatWord(src, words, base, len, i, tmp, text, tp);
      Associate(text, piece, if stop then "" else TextFrom(src, base, len, i + 1));
      assert piece + "" == piece;
      text := text + piece;
      i := i + 1;
    }
    TextFromEnd(src, base, len);
    assert text + "" == text;
    tp := CloseText(tmp, text, tp, base != -1 && base + len == WORDS);
  }

  /** The colon of a run at the end, and the NUL. */
  method CloseText(tmp: array<char>, ghost text: string, tp: nat, colon: bool) returns (next: nat)
    requires BeginsWith(tmp, text) && tp == |text| && tp + 1 + (if colon then 1 else 0) <= tmp.Length
    modifies tmp
    ensures BeginsWith(tmp, text + (if colon then ":" else "") + ['\0']) && next == tp + 1 + if colon then 1 else 0
  {
    next := tp;
    ghost var all := text;
    if colon {
      next := Append(tmp, text, tp, ":");
      all := text + ":";
    }
    assert tmp[..next] == all;
    tmp[next] := '\0';
    assert tmp[..next + 1] == tmp[..next] + ['\0'];
    next := next + 1;
    assert text + "" == text;
  }

  /** The text and its NUL are in the buffer if they fit, and else nothing has changed. */
  predicate Printed(text: string, before: string, after: string, ok: bool) {
    ok == (|text| < |before|) && after == if ok then text + ['\0'] + before[|text| + 1..] else before
  }

  /** The text with the best run compressed, if it fits the buffer with its NUL; it is read back to the address. */
  method InetNtop6(src: seq<byte>, dst: array<char>) returns (ok: bool)
    requires |src| == ADDRESS
    modifies dst
    ensures exists base: int, len: int :: BestRun(Words(src), base, len) && Printed(TextFrom(src, base, len, 0), old(dst[..]), dst[..], ok)
    ensures ok ==> Parse6(TextIn(dst[..])) == Some(src)
    ensures dst.Length >= 46 ==> ok
  {
    hide Words, Parse6, TextFrom;
    var words := LoadWords(src);
    var base, len := FindBestRun(words);
    var tmp := new char[46];
    ghost var text := TextFrom(src, base, len, 0);
    TextLength(src, base, len, 0);
    var tp := FormatWords(src, words, base, len, tmp);
    if tp > dst.Length {
      return false;
    }
    assert tmp[..tp] == text + ['\0'];
    for k := 0 to tp
      invariant dst[..k] == tmp[..k] && tmp[..tp] == text + ['\0']
      invariant forall j :: k <= j < dst.Length ==> dst[j] == old(dst[j])
    {
      dst[k] := tmp[k];
    }
    assert dst[..] == dst[..tp] + dst[tp..];
    assert dst[tp..] == old(dst[..])[tp..];
    TextPlain(src, base, len, 0);
    assert dst[..][..|text|] == dst[..tp][..|text|] == text;
    TextBeforeNul(dst[..], |text|);
    Parse6OfText(src, base, len);
    return true;
  }

  lemma {:induction false} TextPlain(src: seq<byte>, base: int, len: int, i: nat)
    requires |src| == ADDRESS && i <= WORDS
    ensures '\0' !in TextFrom(src, base, len, i)
    decreases WORDS - i
  {
    hide Words;
    if i < WORDS {
      NumeralPlain(Words(src)[i], 16);
      QuadTextPlain(src[12..16]);
      TextPlain(src, base, len, i + 1);
    }
  }

  /** Printing an address into any buffer that is long enough, and reading the buffer, gives the address back. */
  method PrintAndRead(src: seq<byte>, text: array<char>, dst: array<byte>) returns (ok: bool)
    requires |src| == dst.Length == ADDRESS && text.Length >= 46
    modifies text, dst
    ensures ok && dst[..] == src
  {
    hide Words, Parse6, TextFrom, TextIn;
    ok := InetNtop6(src, text);
    ok := InetPton6(TextIn(text[..]), dst);
  }

  // ---- reading ----

  predicate IsHex(ch: char) { '0' <= ch <= '9' || 'a' <= ch <= 'f' || 'A' <= ch <= 'F' }

  function HexValue(ch: char): nat
    requires IsHex(ch)
  {
    if ch <= '9' then ch as int - '0' as int
    else if 'a' <= ch then ch as int - 'a' as int + 10
    else ch as int - 'A' as int + 10
  }

  /** The bytes written so far, the position of "::" among them or -1, whether digits of a group have been
      read and their value, and where the current token starts. */
  datatype Scan = Scan(out: seq<byte>, colon: int, saw: bool, val: nat, tok: nat)

  predicate ScanOk(st: Scan, i: nat) {
    |st.out| <= ADDRESS && -1 <= st.colon <= |st.out| && st.val <= 0xffff && st.tok <= i
  }

  function Flush(out: seq<byte>, val: nat): seq<byte>
    requires val <= 0xffff
  {
    out + [val / 256, val % 256]
  }

  /** What inet_pton6 has written, and where "::" was, when it has read s from position i on. */
  function Scan6(s: string, i: nat, st: Scan): Option<(seq<byte>, int)>
    requires i <= |s| && ScanOk(st, i)
    decreases |s| - i
  {
    if i == |s| then
      if !st.saw then Some((st.out, st.colon))
      else if |st.out| + 2 > ADDRESS then None
      else Some((Flush(st.out, st.val), st.colon))
    else if IsHex(s[i]) then
      var v := st.val * 16 + HexValue(s[i]);
      if v > 0xffff then None else Scan6(s, i + 1, st.(saw := true, val := v))
    else if s[i] == ':' then
      if !st.saw then
        if st.colon >= 0 then None else Scan6(s, i + 1, st.(colon := |st.out|, tok := i + 1))
      else if |st.out| + 2 > ADDRESS then None
      else Scan6(s, i + 1, Scan(Flush(st.out, st.val), st.colon, false, 0, i + 1))
    else if s[i] == '.' && |st.out| + 4 <= ADDRESS && Parse4(s[st.tok..]).Some? then
      Some((st.out + Parse4(s[st.tok..]).value, st.colon))
    else None
  }

  function Zeros(n: nat): seq<byte> { seq(n, i requires 0 <= i < n => 0) }

  /** Shifts what follows "::" to the end. In an address that is already full the shift moves nothing, but
      still clears the bytes it passes over. */
  function Expand(out: seq<byte>, colon: int): Option<seq<byte>>
    requires |out| <= ADDRESS && -1 <= colon <= |out|
  {
    if colon == -1 then
      if |out| == ADDRESS then Some(out) else None
    else if |out| == ADDRESS then Some(out[..colon] + Zeros(ADDRESS - colon))
    else Some(out[..colon] + Zeros(ADDRESS - |out|) + out[colon..])
  }

  lemma {:induction false} Scan6Ok(s: string, i: nat, st: Scan)
    requires i <= |s| && ScanOk(st, i)
    ensures var r := Scan6(s, i, st); r.Some? ==> |r.value.0| <= ADDRESS && -1 <= r.value.1 <= |r.value.0|
    decreases |s| - i
  {
    if i < |s| {
      if IsHex(s[i]) {
        var v := st.val * 16 + HexValue(s[i]);
        if v <= 0xffff {
          Scan6Ok(s, i + 1, st.(saw := true, val := v));
        }
      } else if s[i] == ':' {
        if !st.saw {
          if st.colon < 0 {
            Scan6Ok(s, i + 1, st.(colon := |st.out|, tok := i + 1));
          }
        } else if |st.out| + 2 <= ADDRESS {
          Scan6Ok(s, i + 1, Scan(Flush(st.out, st.val), st.colon, false, 0, i + 1));
        }
      } else {
        Scan4Length(s[st.tok..], 0, [], false);
      }
    }
  }

  lemma {:induction false} HexStep(s: string, i: nat, st: Scan)
    requires i < |s| && ScanOk(st, i) && IsHex(s[i])
    ensures var v := st.val * 16 + HexValue(s[i]);
      Scan6(s, i, st) == if v > 0xffff then None else Scan6(s, i + 1, st.(saw := true, val := v))
  {
  }

  lemma {:induction false} ColonStep(s: string, i: nat, st: Scan)
    requires i < |s| && ScanOk(st, i) && s[i] == ':'
    ensures Scan6(s, i, st) ==
      if !st.saw then
        if st.colon >= 0 then None else Scan6(s, i + 1, st.(colon := |st.out|, tok := i + 1))
      else if |st.out| + 2 > ADDRESS then None
      else Scan6(s, i + 1, Scan(Flush(st.out, st.val), st.colon, false, 0, i + 1))
  {
  }

  lemma {:induction false} OtherStep(s: string, i: nat, st: Scan)
    requires i < |s| && ScanOk(st, i) && !IsHex(s[i]) && s[i] != ':'
    ensures Scan6(s, i, st) ==
      if s[i] == '.' && |st.out| + 4 <= ADDRESS && Parse4(s[st.tok..]).Some?
      then Some((st.out + Parse4(s[st.tok..]).value, st.colon)) else None
  {
  }

  lemma {:induction false} ScanAtEnd(s: string, st: Scan)
    requires ScanOk(st, |s|)
    ensures Scan6(s, |s|, st) ==
      if !st.saw then Some((st.out, st.colon))
      else if |st.out| + 2 > ADDRESS then None
      else Some((Flush(st.out, st.val), st.colon))
  {
  }

  function Scanned(s: string, i: nat, st: Scan): Option<seq<byte>>
    requires i <= |s| && ScanOk(st, i)
  {
    Scan6Ok(s, i, st);
    var r := Scan6(s, i, st);
    if r.None? then None else Expand(r.value.0, r.value.1)
  }

  /** The address inet_pton6 reads from s, if it accepts s. */
  function Parse6(s: string): Option<seq<byte>> {
    if |s| == 0 || s[0] != ':' then Scanned(s, 0, Scan([], -1, false, 0, 0))
    else if |s| == 1 || s[1] != ':' then None
    else Scanned(s, 1, Scan([], -1, false, 0, 1))
  }

  method InetPton6(src: string, dst: array<byte>) returns (ok: bool)
    requires dst.Length == ADDRESS
    modifies dst
    ensures ok == Parse6(src).Some?
    ensures dst[..] == if ok then Parse6(src).value else old(dst[..])
  {
    hide Scan6, Parse4, Zeros, HexValue;
    var tmp := new byte[ADDRESS](_ => 0);
    var tp, colon := 0, -1;
    var i := 0;
    if |src| > 0 && src[0] == ':' {
      i := 1;
      if |src| == 1 || src[1] != ':' {
        return false;
      }
    }
    var tok, saw, val := i, false, 0;
    ghost var quad := false;
    while i < |src|
      invariant 0 <= tok <= i <= |src| && 0 <= tp <= ADDRESS && -1 <= colon <= tp && 0 <= val <= 0xffff
      invariant Parse6(src) == Scanned(src, i, Scan(tmp[..tp], colon, saw, val, tok))
      invariant forall k :: tp <= k < ADDRESS ==> tmp[k] == 0
      invariant dst[..] == old(dst[..])
    {
      var ch := src[i];
      ghost var st := Scan(tmp[..tp], colon, saw, val, tok);
      if IsHex(ch) {
        HexStep(src, i, st);
      } else if ch == ':' {
        ColonStep(src, i, st);
      } else {
        OtherStep(src, i, st);
      }
      i := i + 1;
      if IsHex(ch) {
        val := val * 16 + HexValue(ch);
        if val > 0xffff {
          return false;
        }
        saw := true;
        continue;
      }
      if ch == ':' {
        tok := i;
        if !saw {
          if colon != -1 {
            return false;
          }
          colon := tp;
          continue;
        }
        if tp + 2 > ADDRESS {
          return false;
        }
        tp := PutWord(tmp, tp, val);
        saw, val := false, 0;
        continue;
      }
      if ch == '.' && tp + 4 <= ADDRESS {
        ghost var before := tmp[..tp];
        Scan4Length(src[tok..], 0, [], false);
        var done := InetPton4(src[tok..], tmp, tp);
        if done {
          assert tmp[..tp + 4] == before + Parse4(src[tok..]).value;
          tp := tp + 4;
          saw := false;
          quad := true;
          break;
        }
      }
      return false;
    }
    if !quad {
      ScanAtEnd(src, Scan(tmp[..tp], colon, saw, val, tok));
    }
    if saw {
      if tp + 2 > ADDRESS {
        return false;
      }
      tp := PutWord(tmp, tp, val);
    }
    assert Parse6(src) == Expand(tmp[..tp], colon);
    if colon != -1 {
      ShiftToEnd(tmp, colon, tp);
      tp := ADDRESS;
    }
    if tp != ADDRESS {
      return false;
    }
    forall k | 0 <= k < ADDRESS {
      dst[k] := tmp[k];
    }
    assert dst[..] == tmp[..];
    return true;
  }

  method PutWord(tmp: array<byte>, tp: nat, val: nat) returns (next: nat)
    requires tp + 2 <= tmp.Length && val <= 0xffff
    modifies tmp
    ensures next == tp + 2 && tmp[..next] == Flush(old(tmp[..tp]), val)
    ensures forall k :: next <= k < tmp.Length ==> tmp[k] == old(tmp[k])
  {
    tmp[tp] := val / 256;
    tmp[tp + 1] := val % 256;
    next := tp + 2;
  }

  /** The overlapping move of tmp[colon..tp] to the end of tmp, done by hand from the last byte down. */
  method ShiftToEnd(tmp: array<byte>, colon: nat, tp: nat)
    requires tmp.Length == ADDRESS && colon <= tp <= ADDRESS
    requires forall k :: tp <= k < ADDRESS ==> tmp[k] == 0
    modifies tmp
    ensures Expand(old(tmp[..tp]), colon) == Some(tmp[..])
  {
    ghost var out := tmp[..tp];
    var n := tp - colon;
    for i := 1 to n + 1
      invariant forall k {:trigger tmp[k]} :: 0 <= k < tp - (i - 1) ==> tmp[k] == out[k]
      invariant forall k {:trigger tmp[k]} :: tp - (i - 1) <= k < ADDRESS - (i - 1) ==> tmp[k] == 0
      invariant forall k {:trigger tmp[k]} :: ADDRESS - (i - 1) <= k < ADDRESS ==> tmp[k] == if tp == ADDRESS then 0 else out[k - (ADDRESS - tp)]
    {
      tmp[ADDRESS - i] := tmp[colon + n - i];
      tmp[colon + n - i] := 0;
    }
    ShiftResult(out, colon, tmp[..]);
  }

  lemma {:induction false} ShiftResult(out: seq<byte>, colon: nat, full: seq<byte>)
    requires colon <= |out| <= ADDRESS == |full|
    requires forall k {:trigger full[k]} :: 0 <= k < colon ==> full[k] == out[k]
    requires forall k {:trigger full[k]} :: colon <= k < ADDRESS - (|out| - colon) ==> full[k] == 0
    requires forall k {:trigger full[k]} :: ADDRESS - (|out| - colon) <= k < ADDRESS ==>
      full[k] == if |out| == ADDRESS then 0 else out[k - (ADDRESS - |out|)]
    ensures Expand(out, colon) == Some(full)
  {
    assert Expand(out, colon).value == full;
  }

  // ---- reading back what was printed ----

  lemma {:induction false} HexDigit(d: nat)
    requires d < 16
    ensures IsHex(DigitChar(d)) && HexValue(DigitChar(d)) == d && DigitChar(d) != ':' && DigitChar(d) != '.'
  {
  }

  /** A number printed in hexadecimal is read back as the value of a group. */
  lemma {:induction false} ScanHex(s: string, i: nat, n: nat, st: Scan)
    requires n <= 0xffff && i <= |s| && ScanOk(st, i) && !st.saw && st.val == 0
    requires Numeral(n, 16) <= s[i..]
    ensures Scan6(s, i, st) == Scan6(s, i + |Numeral(n, 16)|, st.(saw := true, val := n))
    decreases n
  {
    hide Scan6, HexValue, IsHex, DigitChar;
    HexDigit(n % 16);
    var text := Numeral(n, 16);
    var last := i + |text| - 1;
    assert s[last] == s[i..][|text| - 1] == text[|text| - 1];
    if n < 16 {
      HexStep(s, last, st);
    } else {
      assert Numeral(n / 16, 16) == text[..|text| - 1];
      ScanHex(s, i, n / 16, st);
      HexStep(s, last, st.(saw := true, val := n / 16));
    }
  }

  /** The digits of an octet are first taken for the digits of a group. */
  lemma {:induction false} ScanOctetAsHex(s: string, i: nat, n: nat, st: Scan) returns (v: nat)
    requires n <= 255 && i <= |s| && ScanOk(st, i) && !st.saw && st.val == 0
    requires Numeral(n, 10) <= s[i..]
    ensures v <= if n < 10 then 9 else if n < 100 then 153 else 2457
    ensures Scan6(s, i, st) == Scan6(s, i + |Numeral(n, 10)|, st.(saw := true, val := v))
    decreases n
  {
    hide Scan6, HexValue, IsHex, DigitChar;
    HexDigit(n % 10);
    var text := Numeral(n, 10);
    var last := i + |text| - 1;
    assert s[last] == s[i..][|text| - 1] == text[|text| - 1];
    v := n % 10;
    if n < 10 {
      HexStep(s, last, st);
    } else {
      assert Numeral(n / 10, 10) == text[..|text| - 1];
      var w := ScanOctetAsHex(s, i, n / 10, st);
      v := w * 16 + n % 10;
      HexStep(s, last, st.(saw := true, val := w));
    }
  }

  /** A dotted quad at the end of the text, after a colon. */
  lemma {:induction false} ScanQuad(s: string, i: nat, b: seq<byte>, st: Scan)
    requires i <= |s| && ScanOk(st, i) && !st.saw && st.val == 0 && st.tok == i && |st.out| + 4 <= ADDRESS
    requires |b| == 4 && s[i..] == QuadText(b)
    ensures Scan6(s, i, st) == Some((st.out + b, st.colon))
  {
    var n := Numeral(b[0], 10);
    var v := ScanOctetAsHex(s, i, b[0], st);
    assert s[i + |n|] == s[i..][|n|] == '.';
    Parse4OfQuadText(b);
  }

  /** The state of the scanner when the text up to word j has been read: the last group is still open, or
      "::" has just begun. */
  function StateAt(src: seq<byte>, base: int, len: int, j: nat, tok: nat): Scan
    requires |src| == ADDRESS && j <= WORDS && (base != -1 ==> 0 <= base && len >= 2 && base + len <= WORDS)
  {
    var w := Words(src);
    if j == 0 then Scan([], -1, false, 0, tok)
    else if base == -1 || j <= base then Scan(src[..2 * (j - 1)], -1, true, w[j - 1], tok)
    else if j <= base + len then Scan(src[..2 * base], -1, false, 0, tok)
    else Scan(src[..2 * base] + src[2 * (base + len)..2 * (j - 1)], 2 * base, true, w[j - 1], tok)
  }

  /** Reading "::", or the colon between two groups. */
  function AfterColon(src: seq<byte>, base: int, len: int, j: nat, tok: nat): Scan
    requires |src| == ADDRESS && j <= WORDS
    requires base != -1 ==> 0 <= base && len >= 2 && base + len <= WORDS
  {
    if base == -1 || j <= base then Scan(src[..2 * j], -1, false, 0, tok)
    else Scan(src[..2 * base] + src[2 * (base + len)..if j <= base + len then 2 * (base + len) else 2 * j], 2 * base, false, 0, tok)
  }

  /** The bytes and the position of "::" that a complete reading ends with. */
  function Compressed(src: seq<byte>, base: int, len: int): (seq<byte>, int)
    requires |src| == ADDRESS && (base != -1 ==> 0 <= base && len >= 2 && base + len <= WORDS)
  {
    if base == -1 then (src, -1) else (src[..2 * base] + src[2 * (base + len)..], 2 * base)
  }

  lemma {:induction false} FlushWord(src: seq<byte>, lo: nat, j: nat)
    requires |src| == ADDRESS && lo <= 2 * j && j < WORDS
    ensures Words(src)[j] <= 0xffff
    ensures Flush(src[lo..2 * j], Words(src)[j]) == src[lo..2 * j + 2]
  {
    assert Words(src)[j] / 256 == src[2 * j] && Words(src)[j] % 256 == src[2 * j + 1];
  }

  /** The scanner keeps to the states above when it reads the colon before word j. */
  lemma {:induction false} ColonBeforeWord(s: string, i: nat, src: seq<byte>, base: int, len: int, j: nat, tok: nat)
    requires |src| == ADDRESS && 1 <= j <= WORDS
    requires base != -1 ==> 0 <= base && len >= 2 && base + len <= WORDS
    requires if base == -1 || j <= base then j < WORDS else j >= base + len && (j < WORDS || j == base + len)
    requires i < |s| && s[i] == ':' && tok <= i
    ensures ScanOk(StateAt(src, base, len, j, tok), i) && ScanOk(AfterColon(src, base, len, j, i + 1), i + 1)
    ensures Scan6(s, i, StateAt(src, base, len, j, tok)) == Scan6(s, i + 1, AfterColon(src, base, len, j, i + 1))
  {
    hide Scan6;
    var st := StateAt(src, base, len, j, tok);
    ColonStep(s, i, st);
    if base == -1 || j <= base {
      FlushWord(src, 0, j - 1);
    } else if j == base + len {
      assert StateAt(src, base, len, j, tok).out == AfterColon(src, base, len, j, i + 1).out;
    } else {
      FlushWord(src, 2 * (base + len), j - 1);
      assert Flush(st.out, st.val) == AfterColon(src, base, len, j, i + 1).out;
    }
  }

  lemma {:induction false} ScanEnd(s: string, i: nat, src: seq<byte>, base: int, len: int, tok: nat)
    requires |src| == ADDRESS && (base != -1 ==> 0 <= base && len >= 2 && base + len <= WORDS)
    requires tok <= i <= |s| && s[i..] == TextFrom(src, base, len, WORDS)
    ensures ScanOk(StateAt(src, base, len, WORDS, tok), i)
    ensures Scan6(s, i, StateAt(src, base, len, WORDS, tok)) == Some(Compressed(src, base, len))
  {
    var st := StateAt(src, base, len, WORDS, tok);
    if base != -1 && base + len == WORDS {
      assert s[i] == s[i..][0];
      assert |s[i..]| == 1;
      ColonBeforeWord(s, i, src, base, len, WORDS, tok);
      assert src[2 * (base + len)..] == [];
    } else {
      FlushWord(src, if base == -1 then 0 else 2 * (base + len), WORDS - 1);
      assert Flush(st.out, st.val) == Compressed(src, base, len).0;
    }
  }

  lemma {:induction false} ScanWord(s: string, i: nat, src: seq<byte>, base: int, len: int, j: nat, tok: nat)
    requires |src| == ADDRESS && (base != -1 ==> 0 <= base && len >= 2 && base + len <= WORDS)
    requires j < WORDS && !InRun(base, len, j) && tok <= i <= |s|
    requires Numeral(Words(src)[j], 16) <= s[i..]
    ensures ScanOk(AfterColon(src, base, len, j, tok), i)
    ensures var k := i + |Numeral(Words(src)[j], 16)|;
      k <= |s| && ScanOk(StateAt(src, base, len, j + 1, tok), k) &&
      Scan6(s, i, AfterColon(src, base, len, j, tok)) == Scan6(s, k, StateAt(src, base, len, j + 1, tok))
  {
    hide Scan6;
    FlushWord(src, 0, j);
    ScanHex(s, i, Words(src)[j], AfterColon(src, base, len, j, tok));
  }

  lemma {:induction false} TextShape(src: seq<byte>, base: int, len: int, j: nat)
    requires |src| == ADDRESS && j < WORDS
    ensures var text, rest := TextFrom(src, base, len, j), TextFrom(src, base, len, j + 1);
      var colon := if j > 0 then ":" else "";
      if j == 6 && IsMapped(Words(src), base, len) then text == colon + QuadText(src[12..16])
      else if !InRun(base, len, j) then text == colon + (Numeral(Words(src)[j], 16) + rest)
      else text == if j == base then ":" + rest else rest
  {
    hide Numeral, QuadText, Words;
    var rest := TextFrom(src, base, len, j + 1);
    Associate(if j > 0 then ":" else "", Numeral(Words(src)[j], 16), rest);
    assert "" + rest == rest;
  }

  lemma {:induction false} StateShape(src: seq<byte>, base: int, len: int, j: nat, tok: nat)
    requires |src| == ADDRESS && j < WORDS && (base != -1 ==> 0 <= base && len >= 2 && base + len <= WORDS)
    ensures InRun(base, len, j) ==>
      StateAt(src, base, len, j + 1, tok) == if j == base then AfterColon(src, base, len, j, tok) else StateAt(src, base, len, j, tok)
    ensures j == 0 && base != 0 ==> AfterColon(src, base, len, j, tok) == StateAt(src, base, len, j, tok)
    ensures j == 6 && IsMapped(Words(src), base, len) ==>
      var st := AfterColon(src, base, len, j, tok);
      !st.saw && st.val == 0 && st.tok == tok && |st.out| <= 2 && (st.out + src[12..16], st.colon) == Compressed(src, base, len)
    ensures ScanOk(AfterColon(src, base, len, j, tok), tok)
  {
    if j == 6 && IsMapped(Words(src), base, len) {
      var st := AfterColon(src, base, len, j, tok);
      assert st.out == src[2 * len..12];
      assert src[2 * len..12] + src[12..16] == src[2 * len..];
      assert Compressed(src, base, len).0 == src[2 * len..];
    }
  }

  /** From the state reached before word j, the rest of the text is read to the end. */
  lemma {:induction false} ScanText(s: string, i: nat, src: seq<byte>, base: int, len: int, j: nat, tok: nat)
    requires |src| == ADDRESS && BestRun(Words(src), base, len) && j <= WORDS && !(j == 0 == base)
    requires tok <= i <= |s| && s[i..] == TextFrom(src, base, len, j)
    ensures ScanOk(StateAt(src, base, len, j, tok), i)
    ensures Scan6(s, i, StateAt(src, base, len, j, tok)) == Some(Compressed(src, base, len))
    decreases WORDS - j
  {
    hide Scan6, Numeral, TextFrom, StateAt, AfterColon, Compressed, QuadText, Words;
    if j == WORDS {
      ScanEnd(s, i, src, base, len, tok);
    } else {
      TextShape(src, base, len, j);
      if InRun(base, len, j) && j > base {
        StateShape(src, base, len, j, tok);
        ScanText(s, i, src, base, len, j + 1, tok);
      } else if j == 0 {
        StateShape(src, base, len, j, tok);
        ScanFromWord(s, i, src, base, len, j, tok);
      } else {
        assert s[i] == s[i..][0];
        assert s[i + 1..] == s[i..][1..];
        ColonBeforeWord(s, i, src, base, len, j, tok);
        ScanFromWord(s, i + 1, src, base, len, j, i + 1);
      }
    }
  }

  lemma {:induction false} ScanFromWord(s: string, i: nat, src: seq<byte>, base: int, len: int, j: nat, tok: nat)
    requires |src| == ADDRESS && BestRun(Words(src), base, len) && j < WORDS
    requires tok <= i <= |s| && (j > 0 ==> tok == i) && (if j > 0 then ":" else "") + s[i..] == TextFrom(src, base, len, j)
    requires !InRun(base, len, j) || (j == base && j > 0)
    ensures ScanOk(AfterColon(src, base, len, j, tok), i)
    ensures Scan6(s, i, AfterColon(src, base, len, j, tok)) == Some(Compressed(src, base, len))
    decreases WORDS - j, 0
  {
    hide Scan6, Numeral, TextFrom, StateAt, AfterColon, Compressed, QuadText, Words;
    TextShape(src, base, len, j);
    StateShape(src, base, len, j, tok);
    var colon := if j > 0 then ":" else "";
    assert (colon + s[i..])[|colon|..] == s[i..];
    if j == 6 && IsMapped(Words(src), base, len) {
      assert (colon + QuadText(src[12..16]))[|colon|..] == QuadText(src[12..16]);
      ScanQuad(s, i, src[12..16], AfterColon(src, base, len, j, tok));
    } else if InRun(base, len, j) {
      assert (colon + TextFrom(src, base, len, j + 1))[|colon|..] == TextFrom(src, base, len, j + 1);
      ScanText(s, i, src, base, len, j + 1, tok);
    } else {
      var n := Numeral(Words(src)[j], 16);
      var rest := n + TextFrom(src, base, len, j + 1);
      assert (colon + rest)[|colon|..] == rest;
      ScanWord(s, i, src, base, len, j, tok);
      assert s[i + |n|..] == s[i..][|n|..] == TextFrom(src, base, len, j + 1);
      ScanText(s, i + |n|, src, base, len, j + 1, tok);
    }
  }

  lemma {:induction false} ExpandCompressed(src: seq<byte>, base: int, len: int)
    requires |src| == ADDRESS && BestRun(Words(src), base, len)
    ensures var c := Compressed(src, base, len);
      |c.0| <= ADDRESS && -1 <= c.1 <= |c.0| && Expand(c.0, c.1) == Some(src)
  {
    hide Beats;
    if base != -1 {
      forall k | 2 * base <= k < 2 * (base + len)
        ensures src[k] == 0
      {
        assert Words(src)[k / 2] == 0;
        assert k == 2 * (k / 2) || k == 2 * (k / 2) + 1;
      }
      var c := Compressed(src, base, len);
      assert Expand(c.0, c.1).value == src;
    }
  }

  /** inet_pton6 undoes inet_ntop6. */
  lemma {:induction false} Parse6OfText(src: seq<byte>, base: int, len: int)
    requires |src| == ADDRESS && BestRun(Words(src), base, len)
    ensures Parse6(TextFrom(src, base, len, 0)) == Some(src)
  {
    hide Scan6;
    var s := TextFrom(src, base, len, 0);
    ExpandCompressed(src, base, len);
    if base == 0 {
      assert s == ":" + TextFrom(src, base, len, 1);
      assert s[1..] == TextFrom(src, base, len, 1);
      RunContinues(src, base, len, 1);
      ScanText(s, 1, src, base, len, 1, 1);
    } else {
      HexDigitFirst(Words(src)[0]);
      assert s[0..] == s;
      ScanText(s, 0, src, base, len, 0, 0);
    }
  }

  lemma {:induction false} HexDigitFirst(n: nat)
    ensures Numeral(n, 16)[0] != ':'
    decreases n
  {
    HexDigit(n % 16);
    if n >= 16 {
      HexDigitFirst(n / 16);
    }
  }

  /** What is written from inside the run starts with a colon: the one that ends "::". */
  lemma {:induction false} RunContinues(src: seq<byte>, base: int, len: int, j: nat)
    requires |src| == ADDRESS && 0 <= base < j <= base + len <= WORDS && (base == 0 ==> len >= 2)
    ensures TextFrom(src, base, len, j) != "" && TextFrom(src, base, len, j)[0] == ':'
    decreases WORDS - j
  {
    hide Numeral;
    if j < base + len {
      RunContinues(src, base, len, j + 1);
    }
  }

  // ---- "::" in a full address ----

  lemma {:induction false} FlushDigit(n: nat)
    requires n < 8
    ensures |DigitBytes(n)| == 2 * n && |DigitBytes(n + 1)| == 2 * n + 2
    ensures n == 0 ==> DigitBytes(n) == []
    ensures Flush(DigitBytes(n), n + 1) == DigitBytes(n + 1)
  {
  }

  /** Reading groups of one digit each. */
  lemma {:induction false} OneDigitGroups(s: string, n: nat)
    requires 1 <= n <= 8 && |s| >= 2 * n - 1
    requires forall k :: 0 <= k < 2 * n - 1 ==> s[k] == if k % 2 == 1 then ':' else "12345678"[k / 2]
    ensures ScanOk(DigitGroups(n), 2 * n - 1)
    ensures Scan6(s, 0, Scan([], -1, false, 0, 0)) == Scan6(s, 2 * n - 1, DigitGroups(n))
    decreases n
  {
    hide Scan6, Flush, DigitBytes;
    assert s[2 * n - 2] == "12345678"[n - 1] == (n + '0' as int) as char;
    FlushDigit(n - 1);
    if n == 1 {
      HexStep(s, 0, Scan([], -1, false, 0, 0));
    } else {
      OneDigitGroups(s, n - 1);
      FlushDigit(n - 2);
      assert s[2 * n - 3] == ':';
      ColonStep(s, 2 * n - 3, DigitGroups(n - 1));
      HexStep(s, 2 * n - 2, Scan(DigitBytes(n - 1), -1, false, 0, 2 * n - 2));
    }
  }

  function DigitBytes(n: nat): seq<byte>
    requires n <= 8
  {
    [0, 1, 0, 2, 0, 3, 0, 4, 0, 5, 0, 6, 0, 7, 0, 8][..2 * n]
  }

  function DigitGroups(n: nat): Scan
    requires 1 <= n <= 8
  {
    Scan(DigitBytes(n - 1), -1, true, n, 2 * n - 2)
  }

  /** The last group of 1:2:3:4:5:6:7::8 is lost; and one colon too many at the end goes unnoticed. */
  lemma {:induction false} FullAddressExamples()
    ensures Parse6("1:2:3:4:5:6:7::8") == Some(DigitBytes(7) + [0, 0])
    ensures Parse6("1:2:3:4:5:6:7:8:") == Some(DigitBytes(8))
  {
    hide Scan6;
    var s, t := "1:2:3:4:5:6:7::8", "1:2:3:4:5:6:7:8:";
    OneDigitGroups(s, 7);
    ColonStep(s, 13, DigitGroups(7));
    ColonStep(s, 14, Scan(DigitBytes(7), -1, false, 0, 14));
    HexStep(s, 15, Scan(DigitBytes(7), 14, false, 0, 15));
    FlushDigit(6);
    FlushDigit(7);
    ScanAtEnd(s, Scan(DigitBytes(7), 14, true, 8, 15));
    assert DigitBytes(8)[..14] + Zeros(2) == DigitBytes(7) + [0, 0];
    OneDigitGroups(t, 8);
    ColonStep(t, 15, DigitGroups(8));
    ScanAtEnd(t, Scan(DigitBytes(8), -1, false, 0, 16));
  }
}
