/** SipMessageParser of SipLayerTransport.cxx: cuts a byte stream into SIP messages. */
module SipMessageParser {
  import opened Wrappers
  import opened Bytes

  const BUFFER_UNIT := 1024
  const CR: byte := 13
  const LF: byte := 10

  /** findContentLength, as a function of the header bytes; it never exceeds a signed number of 32 bits. */
  type ContentLength = f: seq<byte> -> nat | forall h :: f(h) < 0x8000_0000 witness (h: seq<byte>) => 0

  /** Whether createMessage returns a message for a text; if not, it throws. */
  type Accepts = seq<byte> -> bool

  /** What a call of feed does: it returns nothing, or a message, or throws an exception from createMessage. Of a text that
      is refused the parser keeps the bytes if the text has content. */
  datatype Outcome = Nothing | Emitted(text: seq<byte>) | Refused(text: seq<byte>, kept: bool)

  // ---- the parser as a state machine ----

  /** The bytes of the current message so far, the state, and the progress in the content, which has 32 bits. */
  datatype Parser = Parser(text: seq<byte>, state: nat, contentIndex: nat, contentLength: nat)

  predicate Initial(p: Parser) { p.text == [] && p.state == 0 && p.contentIndex == 0 }

  function Reset(contentLength: nat): Parser { Parser([], 0, 0, contentLength) }

  /** The parser is reset before the message is created if there is no content, and after that if there is. */
  function Step(cl: ContentLength, accepts: Accepts, p: Parser, data: byte): (Parser, Outcome) {
    var text := p.text + [data];
    if p.state == 0 then
      (p.(text := text, state := if data == LF then 1 else 0), Nothing)
    else if p.state == 1 then
      if data == LF then
        var n := cl(text);
        if n > 0 then (Parser(text, 2, 0, n), Nothing)
        else (Reset(0), if accepts(text) then Emitted(text) else Refused(text, false))
      else
        (p.(text := text, state := if data != CR then 0 else 1), Nothing)
    else
      var i := (p.contentIndex + 1) % TWO32;
      if i != p.contentLength then (p.(text := text, contentIndex := i), Nothing)
      else if accepts(text) then (Reset(p.contentLength), Emitted(text))
      else (p.(text := text, contentIndex := i), Refused(text, true))
  }

  // ---- the object ----

  class SipMessageParser {
    const cl: ContentLength
    const accepts: Accepts
    var buffer: array<byte>
    var length: nat
    var index: nat
    var state: nat
    var contentIndex: nat
    var contentLength: nat

    /** The write index stays within the buffer, which grows by whole units. */
    ghost predicate Valid()
      reads this
    {
      buffer.Length == length && length >= BUFFER_UNIT && length % BUFFER_UNIT == 0 && index <= length && state <= 2
    }

    ghost function Abstract(): Parser
      requires Valid()
      reads this, buffer
    {
      Parser(buffer[..index], state, contentIndex, contentLength)
    }

    constructor (cl: ContentLength, accepts: Accepts)
      ensures Valid() && fresh(buffer) && this.cl == cl && this.accepts == accepts && Initial(Abstract())
    {
      this.cl, this.accepts := cl, accepts;
      buffer := new byte[BUFFER_UNIT](_ => 0);
      length, index, contentIndex, state, contentLength := BUFFER_UNIT, 0, 0, 0, 0;
    }

    /** init: back to a buffer of one unit, all zero. */
    method Init()
      requires Valid()
      modifies this
      ensures Valid() && fresh(buffer) && Initial(Abstract()) && contentLength == old(contentLength) && length == BUFFER_UNIT
    {
      buffer := new byte[BUFFER_UNIT](_ => 0);
      length, state, index, contentIndex := BUFFER_UNIT, 0, 0, 0;
    }

    /** expandBuffer: realloc keeps the bytes. */
    method ExpandBuffer()
      requires Valid()
      modifies `buffer, `length
      ensures Valid() && fresh(buffer) && Abstract() == old(Abstract()) && length == old(length) + BUFFER_UNIT
    {
      assert BUFFER_UNIT * (length / BUFFER_UNIT + 1) == length + BUFFER_UNIT;
      var bigger := new byte[BUFFER_UNIT * (length / BUFFER_UNIT + 1)];
      for k := 0 to length
        invariant buffer == old(buffer) && length == old(length) && Valid() && Abstract() == old(Abstract())
        invariant forall j :: 0 <= j < k ==> bigger[j] == buffer[j]
      {
        bigger[k] := buffer[k];
      }
      assert (length + BUFFER_UNIT) % BUFFER_UNIT == 0;
      assert bigger[..index] == buffer[..index];
      buffer := bigger;
      length := length + BUFFER_UNIT;
    }

    /** feed, with an exception as an outcome. */
    method Feed(udata: byte) returns (outcome: Outcome)
      requires Valid()
      modifies this, buffer
      ensures Valid() && (buffer == old(buffer) || fresh(buffer))
      ensures (Abstract(), outcome) == Step(cl, accepts, old(Abstract()), udata)
    {
      ghost var p := Abstract();
      if index >= length {
        ExpandBuffer();
      }
      buffer[index] := udata;
      index := index + 1;
      assert buffer[..index] == p.text + [udata];
      if state == 0 {
        if udata == LF {
          state := 1;
        }
      } else if state == 1 {
        if udata == LF {
          state := 2;
          contentLength := cl(buffer[..index]);
          if contentLength == 0 {
            var messageString := buffer[..index];
            Init();
            return if accepts(messageString) then Emitted(messageString) else Refused(messageString, false);
          }
          contentIndex := 0;
        } else if udata != CR {
          state := 0;
        }
      } else {
        contentIndex := (contentIndex + 1) % TWO32;
        if contentIndex == contentLength {
          var messageString := buffer[..index];
          if !accepts(messageString) {
            return Refused(messageString, true);
          }
          Init();
          return Emitted(messageString);
        }
      }
      return Nothing;
    }
  }

  // ---- framing ----

  /** A blank line ends at index k: a line feed, and before it only carriage returns back to another one. */
  ghost predicate BlankLineAt(s: seq<byte>, k: int) {
    0 <= k < |s| && s[k] == LF && exists j :: 0 <= j < k && LineStart(s, j, k)
  }

  /** The line that begins after index j is blank up to index k. */
  ghost predicate LineStart(s: seq<byte>, j: int, k: int)
    requires 0 <= j < k <= |s|
  {
    s[j] == LF && forall i :: j < i < k ==> s[i] == CR
  }

  /** A header: it ends with its first blank line. */
  ghost predicate IsHeader(h: seq<byte>) {
    BlankLineAt(h, |h| - 1) && forall k :: 0 <= k < |h| - 1 ==> !BlankLineAt(h, k)
  }

  /** A header, and the number of bytes it announces. */
  ghost predicate Framed(cl: ContentLength, h: seq<byte>, m: seq<byte>) {
    IsHeader(h) && h <= m && |m| == |h| + cl(h)
  }

  ghost predicate IsMessage(cl: ContentLength, m: seq<byte>) { exists h :: Framed(cl, h, m) }

  /** The line being read is blank so far. */
  ghost predicate InBlankLine(s: seq<byte>) { exists j :: 0 <= j < |s| && LineStart(s, j, |s|) }

  ghost predicate NoBlankLine(s: seq<byte>) { forall k :: 0 <= k < |s| ==> !BlankLineAt(s, k) }

  /** What the state says about the text. Content may be there in full, or more than that, if it was refused. */
  ghost predicate Inv(cl: ContentLength, p: Parser) {
    p.state <= 2 &&
    (p.state <= 1 ==> NoBlankLine(p.text) && (p.state == 1 <==> InBlankLine(p.text))) &&
    (p.state == 2 ==> exists h :: ReadsContent(cl, p, h))
  }

  ghost predicate ReadsContent(cl: ContentLength, p: Parser, h: seq<byte>) {
    IsHeader(h) && h <= p.text && p.contentLength == cl(h) > 0 && p.contentIndex == (|p.text| - |h|) % TWO32
  }

  /** A text for which createMessage is called: it is accepted exactly if it is emitted, and it is a framed message, as long
      as 32 bits can count its bytes. */
  ghost predicate Fair(cl: ContentLength, accepts: Accepts, o: Outcome) {
    match o
    case Nothing => true
    case Emitted(m) => accepts(m) && (|m| < TWO32 ==> IsMessage(cl, m))
    case Refused(m, kept) => !accepts(m) && (|m| < TWO32 ==> IsMessage(cl, m) && (kept <==> HasContent(cl, m)))
  }

  /** A message with at least one byte after its header. */
  ghost predicate HasContent(cl: ContentLength, m: seq<byte>) { exists h :: Framed(cl, h, m) && cl(h) > 0 }

  lemma {:induction false} InitialInv(cl: ContentLength, p: Parser)
    requires Initial(p)
    ensures Inv(cl, p)
  {
  }

  lemma {:induction false} LineExtended(s: seq<byte>, x: byte, j: int, k: int)
    requires 0 <= j < k <= |s|
    ensures LineStart(s + [x], j, k) <==> LineStart(s, j, k)
  {
    var t := s + [x];
    assert forall i :: 0 <= i < |s| ==> t[i] == s[i];
    if LineStart(t, j, k) {
      forall i | j < i < k
        ensures s[i] == CR
      {
        assert t[i] == CR;
      }
    }
  }

  lemma {:induction false} BlankLineExtended(s: seq<byte>, x: byte, k: int)
    requires 0 <= k < |s|
    ensures BlankLineAt(s + [x], k) <==> BlankLineAt(s, k)
  {
    forall j | 0 <= j < k
      ensures LineStart(s + [x], j, k) <==> LineStart(s, j, k)
    {
      LineExtended(s, x, j, k);
    }
  }

  /** The last byte of a text ends a blank line exactly when it is a line feed in a line that was blank so far. */
  lemma {:induction false} BlankLineEnds(s: seq<byte>, x: byte)
    ensures BlankLineAt(s + [x], |s|) <==> x == LF && InBlankLine(s)
  {
    forall j | 0 <= j < |s|
      ensures LineStart(s + [x], j, |s|) <==> LineStart(s, j, |s|)
    {
      LineExtended(s, x, j, |s|);
    }
  }

  /** The line being read stays blank with a carriage return, and begins with a line feed. */
  lemma {:induction false} BlankLineGoesOn(s: seq<byte>, x: byte)
    ensures InBlankLine(s + [x]) <==> x == LF || (x == CR && InBlankLine(s))
  {
    var t := s + [x];
    if x == LF {
      assert LineStart(t, |s|, |t|);
    }
    if x == CR && InBlankLine(s) {
      var j :| 0 <= j < |s| && LineStart(s, j, |s|);
      assert LineStart(t, j, |t|);
    }
    if InBlankLine(t) {
      var j :| 0 <= j < |t| && LineStart(t, j, |t|);
      if j < |s| {
        assert t[|s|] == CR;
        assert LineStart(t, j, |s|);
        LineExtended(s, x, j, |s|);
      }
    }
  }

  /** The bytes that leave the parser with an outcome. */
  function Taken(o: Outcome): seq<byte> {
    match o
    case Nothing => []
    case Emitted(m) => m
    case Refused(m, kept) => if kept then [] else m
  }

  /** A step keeps the invariant. With an outcome the text is all bytes since the last reset, and these go unless the text has
      content and is refused. */
  lemma {:induction false} StepKeepsInv(cl: ContentLength, accepts: Accepts, p: Parser, data: byte)
    requires Inv(cl, p)
    ensures var (q, o) := Step(cl, accepts, p, data);
      Inv(cl, q) && Fair(cl, accepts, o) && (o != Nothing ==> o.text == p.text + [data]) &&
      if o.Emitted? || (o.Refused? && !o.kept) then Initial(q)
      else q.text == p.text + [data] && (o.Refused? ==> q.state == 2 && q.contentIndex == q.contentLength)
  {
    hide BlankLineAt, InBlankLine;
    var text := p.text + [data];
    var (q, o) := Step(cl, accepts, p, data);
    if p.state <= 1 {
      BlankLineEnds(p.text, data);
      BlankLineGoesOn(p.text, data);
      forall k | 0 <= k < |p.text|
        ensures !BlankLineAt(text, k)
      {
        BlankLineExtended(p.text, data, k);
      }
      if p.state == 1 && data == LF {
        assert IsHeader(text);
        if cl(text) == 0 {
          assert Framed(cl, text, text);
          NoContent(cl, text);
          InitialInv(cl, q);
        } else {
          assert ReadsContent(cl, q, text);
        }
      }
    } else {
      var h :| ReadsContent(cl, p, h);
      assert h <= text;
      NextIndex(|p.text| - |h|);
      if o != Nothing {
        FullText(cl, h, text);
      }
      if o.Emitted? {
        InitialInv(cl, q);
      } else {
        assert ReadsContent(cl, q, h);
      }
    }
  }

  lemma {:induction false} NextIndex(n: nat)
    ensures (n % TWO32 + 1) % TWO32 == (n + 1) % TWO32
  {
  }

  lemma {:induction false} FullText(cl: ContentLength, h: seq<byte>, m: seq<byte>)
    requires IsHeader(h) && h <= m && cl(h) == (|m| - |h|) % TWO32 && cl(h) > 0
    ensures |m| < TWO32 ==> IsMessage(cl, m) && HasContent(cl, m)
  {
    if |m| < TWO32 {
      assert Framed(cl, h, m);
    }
  }

  lemma {:induction false} NoContent(cl: ContentLength, h: seq<byte>)
    requires IsHeader(h) && cl(h) == 0
    ensures IsMessage(cl, h) && !HasContent(cl, h)
  {
    assert Framed(cl, h, h);
    ContentIsRest(cl, h, h);
  }

  // ---- whole streams ----

  function Note(o: Outcome): seq<Outcome> { if o == Nothing then [] else [o] }

  /** Feeding bytes one by one, going on after exceptions; what happens on the way. */
  function FeedAll(cl: ContentLength, accepts: Accepts, p: Parser, data: seq<byte>): (Parser, seq<Outcome>)
    decreases |data|
  {
    if |data| == 0 then (p, [])
    else
      var (q, o) := Step(cl, accepts, p, data[0]);
      var (r, os) := FeedAll(cl, accepts, q, data[1..]);
      (r, Note(o) + os)
  }

  function Concat(ms: seq<seq<byte>>): seq<byte> { if |ms| == 0 then [] else ms[0] + Concat(ms[1..]) }

  function TakenAll(os: seq<Outcome>): seq<byte> { if |os| == 0 then [] else Taken(os[0]) + TakenAll(os[1..]) }

  /** The messages that are returned. */
  function Messages(os: seq<Outcome>): seq<seq<byte>> {
    if |os| == 0 then [] else (if os[0].Emitted? then [os[0].text] else []) + Messages(os[1..])
  }

  /** Whatever the stream: nothing is lost, added or reordered. The texts emitted, those without content that are refused, and
      what the parser holds are the stream. */
  lemma {:induction false} NothingLost(cl: ContentLength, accepts: Accepts, p: Parser, data: seq<byte>)
    requires Inv(cl, p)
    ensures var (q, os) := FeedAll(cl, accepts, p, data);
      Inv(cl, q) && p.text + data == TakenAll(os) + q.text &&
      forall i :: 0 <= i < |os| ==> os[i] != Nothing && Fair(cl, accepts, os[i])
    decreases |data|
  {
    hide Step, Inv, Fair;
    if |data| > 0 {
      var (q, o) := Step(cl, accepts, p, data[0]);
      StepKeepsInv(cl, accepts, p, data[0]);
      NothingLost(cl, accepts, q, data[1..]);
      var (r, os) := FeedAll(cl, accepts, q, data[1..]);
      assert p.text + data == (p.text + [data[0]]) + data[1..];
      assert p.text + [data[0]] == Taken(o) + q.text;
      TakenNext(o, os);
      Associate(Taken(o), q.text, data[1..]);
      Associate(Taken(o), TakenAll(os), r.text);
    }
  }

  lemma {:induction false} TakenNext(o: Outcome, os: seq<Outcome>)
    ensures TakenAll(Note(o) + os) == Taken(o) + TakenAll(os)
  {
    if o == Nothing {
      assert [] + os == os && [] + TakenAll(os) == TakenAll(os);
    } else {
      assert ([o] + os)[1..] == os;
    }
  }

  lemma {:induction false} Associate(a: seq<byte>, b: seq<byte>, c: seq<byte>)
    ensures a + (b + c) == (a + b) + c
  {
  }

  /** No message is a proper beginning of another one: the header ends where its first blank line does. */
  lemma {:induction false} FramingUnique(cl: ContentLength, h: seq<byte>, m: seq<byte>, h2: seq<byte>, m2: seq<byte>, rest: seq<byte>, rest2: seq<byte>)
    requires Framed(cl, h, m) && Framed(cl, h2, m2) && m + rest == m2 + rest2
    ensures m == m2 && rest == rest2
  {
    var s := m + rest;
    assert h == s[..|h|] && h2 == s[..|h2|];
    HeaderShortest(h, h2);
    HeaderShortest(h2, h);
    assert m == s[..|m|] && m2 == s[..|m2|];
    assert rest == s[|m|..] && rest2 == s[|m2|..];
  }

  lemma {:induction false} HeaderShortest(h: seq<byte>, h2: seq<byte>)
    requires IsHeader(h) && IsHeader(h2) && (h <= h2 || h2 <= h)
    ensures |h| >= |h2|
  {
    if |h| < |h2| {
      var k := |h| - 1;
      assert BlankLineAt(h, k);
      var j :| 0 <= j < k && LineStart(h, j, k);
      assert LineStart(h2, j, k);
      assert BlankLineAt(h2, k);
    }
  }

  // ---- streams of messages ----

  lemma {:induction false} FeedSplit(cl: ContentLength, accepts: Accepts, p: Parser, a: seq<byte>, b: seq<byte>)
    ensures var (q, os) := FeedAll(cl, accepts, p, a); var (r, more) := FeedAll(cl, accepts, q, b);
      FeedAll(cl, accepts, p, a + b) == (r, os + more)
    decreases |a|
  {
    hide Step;
    if |a| == 0 {
      assert a + b == b;
      var (r, more) := FeedAll(cl, accepts, p, b);
      assert [] + more == more;
    } else {
      var (q, o) := Step(cl, accepts, p, a[0]);
      assert (a + b)[1..] == a[1..] + b;
      FeedSplit(cl, accepts, q, a[1..], b);
      var (q2, os) := FeedAll(cl, accepts, q, a[1..]);
      var (r, more) := FeedAll(cl, accepts, q2, b);
      AssociateAll(Note(o), os, more);
    }
  }

  lemma {:induction false} AssociateAll<T>(a: seq<T>, b: seq<T>, c: seq<T>)
    ensures a + (b + c) == (a + b) + c
  {
  }

  /** While a message is being read, what the parser has seen is a beginning of it. */
  ghost predicate Partial(cl: ContentLength, p: Parser, h: seq<byte>, m: seq<byte>) {
    p.text <= m && |p.text| < |m| &&
    if |p.text| < |h| then p.state <= 1 && (p.state == 1 <==> InBlankLine(p.text))
    else p.state == 2 && p.contentLength == cl(h) && p.contentIndex == |p.text| - |h|
  }

  /** What becomes of a framed message. */
  function Verdict(accepts: Accepts, h: seq<byte>, m: seq<byte>): Outcome {
    if accepts(m) then Emitted(m) else Refused(m, |m| > |h|)
  }

  /** The parser after a framed message with content has been refused. */
  ghost predicate Full(cl: ContentLength, p: Parser, h: seq<byte>, m: seq<byte>) {
    p == Parser(m, 2, cl(h), cl(h)) && cl(h) > 0
  }

  /** One byte further in a well-framed message: its outcome comes with its last byte, and not before. */
  lemma {:induction false} PartialStep(cl: ContentLength, accepts: Accepts, p: Parser, h: seq<byte>, m: seq<byte>)
    requires Framed(cl, h, m) && Partial(cl, p, h, m)
    ensures var (q, o) := Step(cl, accepts, p, m[|p.text|]);
      if |p.text| + 1 < |m| then o == Nothing && Partial(cl, q, h, m)
      else o == Verdict(accepts, h, m) && if accepts(m) || |m| == |h| then Initial(q) else Full(cl, q, h, m)
  {
    hide BlankLineAt, InBlankLine;
    var n := |p.text|;
    var x := m[n];
    var text := p.text + [x];
    assert text == m[..n + 1];
    assert m[..|m|] == m;
    assert IsHeader(h);
    if n < |h| {
      assert h[..n] == p.text && h[n] == x;
      BlankLineEnds(p.text, x);
      BlankLineGoesOn(p.text, x);
      PrefixBlank(h, n);
      if n + 1 == |h| {
        assert text == h;
      } else {
        assert !BlankLineAt(h, n);
      }
    }
  }

  lemma {:induction false} PrefixBlank(h: seq<byte>, n: nat)
    requires n < |h|
    ensures BlankLineAt(h[..n] + [h[n]], n) <==> BlankLineAt(h, n)
  {
    var t := h[..n] + [h[n]];
    assert forall i :: 0 <= i <= n ==> t[i] == h[i];
    forall j | 0 <= j < n
      ensures LineStart(t, j, n) <==> LineStart(h, j, n)
    {
      if LineStart(t, j, n) {
        forall i | j < i < n
          ensures h[i] == CR
        {
          assert t[i] == CR;
        }
      }
    }
  }

  lemma {:induction false} FeedMessage(cl: ContentLength, accepts: Accepts, p: Parser, h: seq<byte>, m: seq<byte>)
    requires Framed(cl, h, m) && Partial(cl, p, h, m)
    ensures var (q, os) := FeedAll(cl, accepts, p, m[|p.text|..]);
      os == [Verdict(accepts, h, m)] && if accepts(m) || |m| == |h| then Initial(q) else Full(cl, q, h, m)
    decreases |m| - |p.text|
  {
    hide Step, Partial, Framed, Verdict;
    var n := |p.text|;
    PartialSize(cl, p, h, m);
    PartialStep(cl, accepts, p, h, m);
    var (q, o) := Step(cl, accepts, p, m[n]);
    var rest := m[n..];
    assert rest[0] == m[n] && rest[1..] == m[n + 1..];
    if n + 1 == |m| {
      assert rest[1..] == [];
      SomeVerdict(accepts, h, m);
    } else {
      StepText(cl, accepts, p, m[n]);
      FeedMessage(cl, accepts, q, h, m);
    }
  }

  lemma {:induction false} SomeVerdict(accepts: Accepts, h: seq<byte>, m: seq<byte>)
    ensures Verdict(accepts, h, m) != Nothing
  {
  }

  lemma {:induction false} PartialSize(cl: ContentLength, p: Parser, h: seq<byte>, m: seq<byte>)
    requires Partial(cl, p, h, m)
    ensures |p.text| < |m|
  {
  }

  lemma {:induction false} StepText(cl: ContentLength, accepts: Accepts, p: Parser, x: byte)
    ensures var (q, o) := Step(cl, accepts, p, x); o == Nothing ==> q.text == p.text + [x]
  {
  }

  lemma {:induction false} InitialPartial(cl: ContentLength, p: Parser, h: seq<byte>, m: seq<byte>)
    requires Framed(cl, h, m) && Initial(p)
    ensures Partial(cl, p, h, m)
  {
  }

  /** A message from the initial state on. */
  lemma {:induction false} FeedFramed(cl: ContentLength, accepts: Accepts, p: Parser, h: seq<byte>, m: seq<byte>)
    requires Initial(p) && Framed(cl, h, m)
    ensures var (q, os) := FeedAll(cl, accepts, p, m);
      os == [Verdict(accepts, h, m)] && if accepts(m) || |m| == |h| then Initial(q) else Full(cl, q, h, m)
  {
    hide Framed, FeedAll;
    InitialPartial(cl, p, h, m);
    FeedMessage(cl, accepts, p, h, m);
    assert m[0..] == m;
  }

  lemma {:induction false} ContentIsRest(cl: ContentLength, h: seq<byte>, m: seq<byte>)
    requires Framed(cl, h, m)
    ensures HasContent(cl, m) <==> |m| > |h|
  {
    if h2 :| Framed(cl, h2, m) && cl(h2) > 0 {
      HeaderShortest(h, h2);
      HeaderShortest(h2, h);
    }
  }

  /** The messages that createMessage accepts. */
  function Accepted(accepts: Accepts, ms: seq<seq<byte>>): seq<seq<byte>> {
    if |ms| == 0 then [] else (if accepts(ms[0]) then [ms[0]] else []) + Accepted(accepts, ms[1..])
  }

  ghost predicate AllFramed(cl: ContentLength, ms: seq<seq<byte>>) { forall i :: 0 <= i < |ms| ==> IsMessage(cl, ms[i]) }

  /** Every message that has content is accepted. */
  ghost predicate ContentAccepted(cl: ContentLength, accepts: Accepts, ms: seq<seq<byte>>) {
    forall i :: 0 <= i < |ms| && HasContent(cl, ms[i]) ==> accepts(ms[i])
  }

  lemma {:induction false} MessagesNext(o: Outcome, os: seq<Outcome>)
    ensures Messages([o] + os) == (if o.Emitted? then [o.text] else []) + Messages(os)
  {
    assert ([o] + os)[1..] == os;
  }

  /** Feeding well-framed messages one after the other, of which those with content are accepted: exactly the accepted ones
      are emitted, in their order, and the parser is left as it began. */
  lemma {:induction false} EmitsMessages(cl: ContentLength, accepts: Accepts, p: Parser, ms: seq<seq<byte>>)
    requires Initial(p) && AllFramed(cl, ms) && ContentAccepted(cl, accepts, ms)
    ensures var (q, os) := FeedAll(cl, accepts, p, Concat(ms)); Initial(q) && Messages(os) == Accepted(accepts, ms) && |os| == |ms|
    decreases |ms|
  {
    hide Framed, FeedAll, HasContent;
    if |ms| == 0 {
      FeedNothing(cl, accepts, p);
    } else {
      var m, rest := ms[0], ms[1..];
      var h :| Framed(cl, h, m);
      ContentIsRest(cl, h, m);
      HeaderWithin(cl, h, m);
      FeedFramed(cl, accepts, p, h, m);
      var (q, os) := FeedAll(cl, accepts, p, m);
      FeedSplit(cl, accepts, p, m, Concat(rest));
      EmitsMessages(cl, accepts, q, rest);
      MessagesNext(Verdict(accepts, h, m), FeedAll(cl, accepts, q, Concat(rest)).1);
    }
  }

  lemma {:induction false} HeaderWithin(cl: ContentLength, h: seq<byte>, m: seq<byte>)
    requires Framed(cl, h, m)
    ensures |h| <= |m| && (|m| > |h| <==> cl(h) > 0)
  {
  }

  lemma {:induction false} FeedNothing(cl: ContentLength, accepts: Accepts, p: Parser)
    ensures FeedAll(cl, accepts, p, []) == (p, [])
  {
  }

  // ---- after a refusal ----

  /** With its content full the parser is blocked: nothing that follows has any outcome, and all of it is kept. Only a stream
      that makes the index of 32 bits wrap around and come to the content length again ends this. */
  lemma {:induction false} Blocked(cl: ContentLength, accepts: Accepts, p: Parser, data: seq<byte>)
    requires p.state == 2 && p.contentLength <= p.contentIndex < TWO32 && p.contentIndex + |data| < TWO32 + p.contentLength
    ensures FeedAll(cl, accepts, p, data) == (Parser(p.text + data, 2, (p.contentIndex + |data|) % TWO32, p.contentLength), [])
    decreases |data|
  {
    BlockedFrom(cl, accepts, p, data, p.contentIndex);
  }

  /** The same when n bytes of content have been counted, perhaps beyond 32 bits. */
  lemma {:induction false} BlockedFrom(cl: ContentLength, accepts: Accepts, p: Parser, data: seq<byte>, n: nat)
    requires p.state == 2 && p.contentIndex == n % TWO32 && p.contentLength <= n && n + |data| < TWO32 + p.contentLength
    requires p.contentLength < TWO32
    ensures FeedAll(cl, accepts, p, data) == (Parser(p.text + data, 2, (n + |data|) % TWO32, p.contentLength), [])
    decreases |data|
  {
    if |data| == 0 {
      assert p.text + data == p.text;
    } else {
      NextIndex(n);
      NotYet(n + 1, p.contentLength);
      var (q, o) := Step(cl, accepts, p, data[0]);
      BlockedFrom(cl, accepts, q, data[1..], n + 1);
      assert (p.text + [data[0]]) + data[1..] == p.text + data;
    }
  }

  lemma {:induction false} NotYet(n: nat, length: nat)
    requires length < n < TWO32 + length && length < TWO32
    ensures n % TWO32 != length
  {
  }

  /** The first message with content that is refused, at place i, is the end of the stream: the accepted ones before it are
      emitted, and everything from it on is kept without any outcome but its own refusal. */
  lemma {:induction false} BlockedAfter(cl: ContentLength, accepts: Accepts, p: Parser, ms: seq<seq<byte>>, i: nat)
    requires Initial(p) && AllFramed(cl, ms) && i < |ms| && ContentAccepted(cl, accepts, ms[..i])
    requires HasContent(cl, ms[i]) && !accepts(ms[i]) && |Concat(ms[i + 1..])| < TWO32
    ensures var (q, os) := FeedAll(cl, accepts, p, Concat(ms));
      Messages(os) == Accepted(accepts, ms[..i]) && |os| == i + 1 && os[i] == Refused(ms[i], true) &&
      q.text == Concat(ms[i..]) && q.state == 2
  {
    hide FeedAll, Initial;
    var before, m, rest := ms[..i], ms[i], ms[i + 1..];
    var h :| Framed(cl, h, m) && cl(h) > 0;
    assert ms == before + ms[i..] && ms[i..] == [m] + rest;
    ConcatSplit(before, ms[i..]);
    assert Concat(ms[i..]) == m + Concat(rest);
    EmitsMessages(cl, accepts, p, before);
    var (q, os) := FeedAll(cl, accepts, p, Concat(before));
    FeedSplit(cl, accepts, p, Concat(before), m + Concat(rest));
    FeedFramed(cl, accepts, q, h, m);
    var (q2, os2) := FeedAll(cl, accepts, q, m);
    FeedSplit(cl, accepts, q, m, Concat(rest));
    Blocked(cl, accepts, q2, Concat(rest));
    assert [Refused(m, true)] + [] == [Refused(m, true)];
    MessagesLast(os, Refused(m, true));
  }

  lemma {:induction false} MessagesLast(os: seq<Outcome>, o: Outcome)
    requires !o.Emitted?
    ensures Messages(os + [o]) == Messages(os)
    decreases |os|
  {
    if |os| == 0 {
      assert os + [o] == [o] && [o][1..] == [];
    } else {
      assert (os + [o])[1..] == os[1..] + [o];
      MessagesLast(os[1..], o);
    }
  }

  lemma {:induction false} ConcatSplit(a: seq<seq<byte>>, b: seq<seq<byte>>)
    ensures Concat(a + b) == Concat(a) + Concat(b)
    decreases |a|
  {
    if |a| == 0 {
      assert a + b == b;
    } else {
      assert (a + b)[1..] == a[1..] + b;
      ConcatSplit(a[1..], b);
    }
  }

  /** The first message with content that is refused. */
  lemma {:induction false} FirstRefused(cl: ContentLength, accepts: Accepts, ms: seq<seq<byte>>) returns (i: nat)
    requires !ContentAccepted(cl, accepts, ms)
    ensures i < |ms| && HasContent(cl, ms[i]) && !accepts(ms[i]) && ContentAccepted(cl, accepts, ms[..i])
    decreases |ms|
  {
    hide HasContent;
    var n := |ms| - 1;
    if ContentAccepted(cl, accepts, ms[..n]) {
      i := n;
    } else {
      i := FirstRefused(cl, accepts, ms[..n]);
      assert ms[..n][..i] == ms[..i];
    }
  }

  /** After framed messages of fewer than 2^32 bytes the parser is in its initial state exactly if every message with content
      was accepted; and then exactly the accepted ones have been emitted, in order. */
  lemma {:induction false} InitialExactly(cl: ContentLength, accepts: Accepts, p: Parser, ms: seq<seq<byte>>)
    requires Initial(p) && AllFramed(cl, ms) && |Concat(ms)| < TWO32
    ensures var (q, os) := FeedAll(cl, accepts, p, Concat(ms));
      (Initial(q) <==> ContentAccepted(cl, accepts, ms)) && (Initial(q) ==> Messages(os) == Accepted(accepts, ms))
  {
    hide FeedAll, HasContent, ContentAccepted;
    if ContentAccepted(cl, accepts, ms) {
      EmitsMessages(cl, accepts, p, ms);
    } else {
      var i := FirstRefused(cl, accepts, ms);
      assert ms == ms[..i + 1] + ms[i + 1..];
      ConcatSplit(ms[..i + 1], ms[i + 1..]);
      BlockedAfter(cl, accepts, p, ms, i);
    }
  }

  // ---- one text that is refused ----

  /** A line without a space, the short form of a content length of 1, a blank line, and the content. */
  const Malformed: seq<byte> := MalformedHeader + [90]
  const MalformedHeader: seq<byte> := [120, LF, 108, 58, 49, LF, LF]

  lemma {:induction false} MalformedFramed(cl: ContentLength)
    requires cl(MalformedHeader) == 1
    ensures Framed(cl, MalformedHeader, Malformed) && HasContent(cl, Malformed)
  {
    var h := MalformedHeader;
    assert LineStart(h, 5, 6);
    assert BlankLineAt(h, 6);
    forall k | 0 <= k < 6
      ensures !BlankLineAt(h, k)
    {
      forall j | 0 <= j < k && h[k] == LF
        ensures !LineStart(h, j, k)
      {
        assert k == 5 || k == 1;
        assert h[k - 1] != CR && (j == 1 || j == 0 || j >= 2);
      }
    }
  }

  /** This text is a message, and if it is refused no message that follows it is ever emitted. */
  lemma {:induction false} MalformedBlocks(cl: ContentLength, accepts: Accepts, p: Parser, rest: seq<byte>)
    requires Initial(p) && cl(MalformedHeader) == 1 && !accepts(Malformed) && |rest| < TWO32
    ensures IsMessage(cl, Malformed) && FeedAll(cl, accepts, p, Malformed + rest).1 == [Refused(Malformed, true)]
  {
    hide FeedAll;
    MalformedFramed(cl);
    FeedFramed(cl, accepts, p, MalformedHeader, Malformed);
    var (q, os) := FeedAll(cl, accepts, p, Malformed);
    FeedSplit(cl, accepts, p, Malformed, rest);
    Blocked(cl, accepts, q, rest);
  }

  // ---- reads from the socket ----

  /** streamSocketRead: an exception ends the loop over the bytes that were read together, and the others are dropped. */
  function FeedRead(cl: ContentLength, accepts: Accepts, p: Parser, data: seq<byte>): (Parser, seq<Outcome>)
    decreases |data|
  {
    if |data| == 0 then (p, [])
    else
      var (q, o) := Step(cl, accepts, p, data[0]);
      if o.Refused? then (q, [o])
      else
        var (r, os) := FeedRead(cl, accepts, q, data[1..]);
        (r, Note(o) + os)
  }

  predicate NoneRefused(os: seq<Outcome>) { forall i :: 0 <= i < |os| ==> !os[i].Refused? }

  /** Without an exception a read is fed completely; with one, up to it and no further. */
  lemma {:induction false} ReadUpTo(cl: ContentLength, accepts: Accepts, p: Parser, data: seq<byte>) returns (n: nat)
    ensures n <= |data| && FeedRead(cl, accepts, p, data) == FeedAll(cl, accepts, p, data[..n])
    ensures n < |data| ==> EndsRefused(FeedRead(cl, accepts, p, data).1)
    ensures NoneRefused(FeedAll(cl, accepts, p, data).1) ==> n == |data|
    decreases |data|
  {
    hide Step;
    if |data| == 0 {
      n := 0;
      assert data[..0] == data;
    } else {
      var (q, o) := Step(cl, accepts, p, data[0]);
      if o.Refused? {
        n := 1;
        assert data[..1] == [data[0]] && data[..1][1..] == [];
        FeedNothing(cl, accepts, q);
        assert Note(o) + [] == [o];
        var (r, os) := FeedAll(cl, accepts, q, data[1..]);
        assert (Note(o) + os)[0] == o;
      } else {
        var k := ReadUpTo(cl, accepts, q, data[1..]);
        n := k + 1;
        assert data[..n][0] == data[0] && data[..n][1..] == data[1..][..k];
        NoneIn(o, FeedAll(cl, accepts, q, data[1..]).1);
        EndsAlike(o, FeedRead(cl, accepts, q, data[1..]).1);
      }
    }
  }

  predicate EndsRefused(os: seq<Outcome>) { |os| > 0 && os[|os| - 1].Refused? }

  lemma {:induction false} EndsAlike(o: Outcome, os: seq<Outcome>)
    ensures EndsRefused(os) ==> EndsRefused(Note(o) + os)
  {
  }

  lemma {:induction false} NoneIn(o: Outcome, os: seq<Outcome>)
    ensures NoneRefused(Note(o) + os) ==> NoneRefused(os)
  {
    var all := Note(o) + os;
    assert forall i :: 0 <= i < |os| ==> all[i + |Note(o)|] == os[i];
  }

  /** Only the last outcome of a read can be an exception. */
  lemma {:induction false} OneRefusal(cl: ContentLength, accepts: Accepts, p: Parser, data: seq<byte>)
    ensures var os := FeedRead(cl, accepts, p, data).1; |os| > 0 ==> NoneRefused(os[..|os| - 1])
    decreases |data|
  {
    hide Step;
    if |data| > 0 {
      var (q, o) := Step(cl, accepts, p, data[0]);
      if !o.Refused? {
        OneRefusal(cl, accepts, q, data[1..]);
        var os := FeedRead(cl, accepts, q, data[1..]).1;
        var all := Note(o) + os;
        if |os| > 0 {
          assert all[..|all| - 1] == Note(o) + os[..|os| - 1];
        }
      }
    }
  }

  /** One read after the other. */
  function FeedReads(cl: ContentLength, accepts: Accepts, p: Parser, parts: seq<seq<byte>>): (Parser, seq<Outcome>)
    decreases |parts|
  {
    if |parts| == 0 then (p, [])
    else
      var (q, os) := FeedRead(cl, accepts, p, parts[0]);
      var (r, more) := FeedReads(cl, accepts, q, parts[1..]);
      (r, os + more)
  }

  /** As long as nothing is refused it does not matter how the stream is cut into reads. */
  lemma {:induction false} AnyReads(cl: ContentLength, accepts: Accepts, p: Parser, parts: seq<seq<byte>>)
    requires NoneRefused(FeedAll(cl, accepts, p, Concat(parts)).1)
    ensures FeedReads(cl, accepts, p, parts) == FeedAll(cl, accepts, p, Concat(parts))
    decreases |parts|
  {
    hide FeedAll, FeedRead;
    if |parts| == 0 {
      FeedNothing(cl, accepts, p);
    } else {
      var (q, os) := FeedAll(cl, accepts, p, parts[0]);
      var more := FeedAll(cl, accepts, q, Concat(parts[1..])).1;
      FeedSplit(cl, accepts, p, parts[0], Concat(parts[1..]));
      assert forall i :: 0 <= i < |os| ==> (os + more)[i] == os[i];
      assert forall i :: 0 <= i < |more| ==> (os + more)[|os| + i] == more[i];
      var n := ReadUpTo(cl, accepts, p, parts[0]);
      assert parts[0][..|parts[0]|] == parts[0];
      AnyReads(cl, accepts, q, parts[1..]);
    }
  }

  /** Framed messages that are all accepted are emitted however they are cut into reads. */
  lemma {:induction false} EmitsFromReads(cl: ContentLength, accepts: Accepts, p: Parser, ms: seq<seq<byte>>, parts: seq<seq<byte>>)
    requires Initial(p) && AllFramed(cl, ms) && (forall i :: 0 <= i < |ms| ==> accepts(ms[i])) && Concat(parts) == Concat(ms)
    ensures var (q, os) := FeedReads(cl, accepts, p, parts); Initial(q) && Messages(os) == ms
  {
    hide FeedAll, HasContent;
    EmitsMessages(cl, accepts, p, ms);
    AcceptedAll(accepts, ms);
    AllEmitted(FeedAll(cl, accepts, p, Concat(ms)).1);
    AnyReads(cl, accepts, p, parts);
  }

  lemma {:induction false} AcceptedAll(accepts: Accepts, ms: seq<seq<byte>>)
    requires forall i :: 0 <= i < |ms| ==> accepts(ms[i])
    ensures Accepted(accepts, ms) == ms
    decreases |ms|
  {
    if |ms| > 0 {
      AcceptedAll(accepts, ms[1..]);
      assert ms == [ms[0]] + ms[1..];
    }
  }

  /** As many messages as outcomes. */
  lemma {:induction false} AllEmitted(os: seq<Outcome>)
    ensures |Messages(os)| <= |os| && (|Messages(os)| == |os| ==> NoneRefused(os))
    decreases |os|
  {
    if |os| > 0 {
      AllEmitted(os[1..]);
      assert os == [os[0]] + os[1..];
    }
  }

  lemma {:induction false} ReadPartial(cl: ContentLength, accepts: Accepts, p: Parser, h: seq<byte>, m: seq<byte>, rest: seq<byte>)
    requires Framed(cl, h, m) && Partial(cl, p, h, m) && !accepts(m)
    ensures FeedRead(cl, accepts, p, m[|p.text|..] + rest) == FeedAll(cl, accepts, p, m[|p.text|..])
    decreases |m| - |p.text|
  {
    hide Step, Partial, Framed;
    var n := |p.text|;
    PartialSize(cl, p, h, m);
    PartialStep(cl, accepts, p, h, m);
    var (q, o) := Step(cl, accepts, p, m[n]);
    var data := m[n..] + rest;
    assert data[0] == m[n] == m[n..][0] && data[1..] == m[n + 1..] + rest && m[n..][1..] == m[n + 1..];
    if n + 1 == |m| {
      assert m[n..][1..] == [];
      FeedNothing(cl, accepts, q);
      assert Note(o) + [] == [o];
    } else {
      StepText(cl, accepts, p, m[n]);
      ReadPartial(cl, accepts, q, h, m, rest);
    }
  }

  /** What follows a refused message in the same read is dropped, whatever it is. */
  lemma {:induction false} RestDropped(cl: ContentLength, accepts: Accepts, p: Parser, m: seq<byte>, rest: seq<byte>)
    requires Initial(p) && IsMessage(cl, m) && !accepts(m)
    ensures var (q, os) := FeedRead(cl, accepts, p, m + rest);
      os == [Refused(m, HasContent(cl, m))] && if HasContent(cl, m) then q.state == 2 && q.text == m else Initial(q)
  {
    hide FeedAll, FeedRead, HasContent;
    var h :| Framed(cl, h, m);
    ContentIsRest(cl, h, m);
    HeaderWithin(cl, h, m);
    FeedFramed(cl, accepts, p, h, m);
    InitialPartial(cl, p, h, m);
    ReadPartial(cl, accepts, p, h, m, rest);
    assert m[0..] == m;
  }

  // ---- the loops ----

  /** A loop around feed that goes on after exceptions. */
  method FeedStream(parser: SipMessageParser, data: seq<byte>) returns (outcomes: seq<Outcome>)
    requires parser.Valid()
    modifies parser, parser.buffer
    ensures parser.Valid() && (parser.buffer == old(parser.buffer) || fresh(parser.buffer))
    ensures (parser.Abstract(), outcomes) == FeedAll(parser.cl, parser.accepts, old(parser.Abstract()), data)
  {
    hide Step, FeedAll;
    outcomes := [];
    ghost var p := parser.Abstract();
    assert data[..0] == [];
    FeedNothing(parser.cl, parser.accepts, p);
    for i := 0 to |data|
      invariant parser.Valid() && (parser.buffer == old(parser.buffer) || fresh(parser.buffer))
      invariant (parser.Abstract(), outcomes) == FeedAll(parser.cl, parser.accepts, p, data[..i])
    {
      ghost var q := parser.Abstract();
      FeedSplit(parser.cl, parser.accepts, p, data[..i], [data[i]]);
      FeedOne(parser.cl, parser.accepts, q, data[i]);
      assert data[..i + 1] == data[..i] + [data[i]];
      var o := parser.Feed(data[i]);
      outcomes := outcomes + Note(o);
    }
    assert data[..|data|] == data;
  }

  lemma {:induction false} FeedOne(cl: ContentLength, accepts: Accepts, p: Parser, x: byte)
    ensures FeedAll(cl, accepts, p, [x]) == var (q, o) := Step(cl, accepts, p, x); (q, Note(o))
  {
    assert [x][1..] == [];
    var (q, o) := Step(cl, accepts, p, x);
    FeedNothing(cl, accepts, q);
    assert Note(o) + [] == Note(o);
  }

  /** streamSocketRead, on the bytes of one read. */
  method StreamSocketRead(parser: SipMessageParser, data: seq<byte>) returns (outcomes: seq<Outcome>)
    requires parser.Valid()
    modifies parser, parser.buffer
    ensures parser.Valid() && (parser.buffer == old(parser.buffer) || fresh(parser.buffer))
    ensures (parser.Abstract(), outcomes) == FeedRead(parser.cl, parser.accepts, old(parser.Abstract()), data)
  {
    hide Step;
    outcomes := [];
    ghost var p := parser.Abstract();
    assert data[0..] == data;
    assert [] + FeedRead(parser.cl, parser.accepts, p, data).1 == FeedRead(parser.cl, parser.accepts, p, data).1;
    for i := 0 to |data|
      invariant parser.Valid() && (parser.buffer == old(parser.buffer) || fresh(parser.buffer))
      invariant var (r, more) := FeedRead(parser.cl, parser.accepts, parser.Abstract(), data[i..]);
        FeedRead(parser.cl, parser.accepts, p, data) == (r, outcomes + more)
    {
      assert data[i..][0] == data[i] && data[i..][1..] == data[i + 1..];
      ghost var before := outcomes;
      var o := parser.Feed(data[i]);
      outcomes := outcomes + Note(o);
      if o.Refused? {
        return;
      }
      AssociateAll(before, Note(o), FeedRead(parser.cl, parser.accepts, parser.Abstract(), data[i + 1..]).1);
    }
    assert data[|data|..] == [] && outcomes + [] == outcomes;
  }

  /** A stream of well-framed messages through a fresh parser. */
  method ReadMessages(cl: ContentLength, accepts: Accepts, ms: seq<seq<byte>>) returns (parser: SipMessageParser, outcomes: seq<Outcome>)
    requires AllFramed(cl, ms) && ContentAccepted(cl, accepts, ms)
    ensures Messages(outcomes) == Accepted(accepts, ms) && parser.Valid() && Initial(parser.Abstract())
  {
    hide FeedAll;
    parser := new SipMessageParser(cl, accepts);
    EmitsMessages(cl, accepts, parser.Abstract(), ms);
    outcomes := FeedStream(parser, Concat(ms));
  }
}
