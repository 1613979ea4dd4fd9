/** SipCommandDispatcher.cxx: two queues behind a mutex and a semaphore, as interleaved steps of any number of
    producers and of the one thread in run(). */
module CommandDispatcher {
  import opened Wrappers

  type Item = int

  /** A thread in enqueueCommand or enqueueTimeout, named after what it does next. */
  datatype Producer =
    | Idle
    | Locking(item: Item, high: bool)
    | Pushing(item: Item, high: bool)
    | Unlocking
    | Signalling

  /** The thread in run(). */
  datatype Consumer = Checking | Waiting | Acquiring | Popping | Releasing | Handling | Stopped

  datatype Holder = Free | HeldBy(producer: nat) | HeldByConsumer

  /** One item taken from a queue, and how many items had been put into the high priority queue by then. */
  datatype Delivery = Delivery(item: Item, high: bool, highSoFar: nat)

  /** The queues have the newest item in front. The last three fields only record what has happened. */
  datatype State = State(
    high: seq<Item>, low: seq<Item>, mutex: Holder, semaphore: nat, producers: seq<Producer>, consumer: Consumer, keepRunning: bool,
    pushedHigh: seq<Item>, pushedLow: seq<Item>, delivered: seq<Delivery>)

  function Init(n: nat): State {
    State([], [], Free, 0, seq(n, i => Idle), Checking, true, [], [], [])
  }

  datatype Step =
    | Enqueue(i: nat, item: Item, high: bool)
    | Lock(i: nat)
    | Push(i: nat)
    | Unlock(i: nat)
    | Inc(i: nat)
    | Check
    | Dec
    | Acquire
    | Pop
    | Release
    | Handled
    | Stop

  predicate Enabled(s: State, step: Step) {
    match step
    case Enqueue(i, _, _) => i < |s.producers| && s.producers[i].Idle?
    case Lock(i) => i < |s.producers| && s.producers[i].Locking? && s.mutex == Free
    case Push(i) => i < |s.producers| && s.producers[i].Pushing?
    case Unlock(i) => i < |s.producers| && s.producers[i].Unlocking?
    case Inc(i) => i < |s.producers| && s.producers[i].Signalling?
    case Check => s.consumer == Checking
    case Dec => s.consumer == Waiting && s.semaphore > 0
    case Acquire => s.consumer == Acquiring && s.mutex == Free
    case Pop => s.consumer == Popping
    case Release => s.consumer == Releasing
    case Handled => s.consumer == Handling
    case Stop => s.keepRunning
  }

  /** massert(size > 0), and the one in pop_back: the consumer finds an item when it holds the mutex. */
  predicate PopAsserts(s: State, step: Step) { step == Pop ==> |s.high| > 0 || |s.low| > 0 }

  function Front<T>(s: seq<T>): seq<T>
    requires |s| > 0
  {
    s[..|s| - 1]
  }

  function Next(s: State, step: Step): State
    requires Enabled(s, step) && PopAsserts(s, step)
  {
    match step
    case Enqueue(i, item, high) => s.(producers := s.producers[i := Locking(item, high)])
    case Lock(i) =>
      s.(mutex := HeldBy(i), producers := s.producers[i := Pushing(s.producers[i].item, s.producers[i].high)])
    case Push(i) =>
      var item := s.producers[i].item;
      if s.producers[i].high then
        s.(high := [item] + s.high, pushedHigh := s.pushedHigh + [item], producers := s.producers[i := Unlocking])
      else
        s.(low := [item] + s.low, pushedLow := s.pushedLow + [item], producers := s.producers[i := Unlocking])
    case Unlock(i) => s.(mutex := Free, producers := s.producers[i := Signalling])
    case Inc(i) => s.(semaphore := s.semaphore + 1, producers := s.producers[i := Idle])
    case Check => s.(consumer := if s.keepRunning then Waiting else Stopped)
    case Dec => s.(semaphore := s.semaphore - 1, consumer := Acquiring)
    case Acquire => s.(mutex := HeldByConsumer, consumer := Popping)
    case Pop =>
      if |s.high| > 0 then
        s.(high := Front(s.high), consumer := Releasing,
           delivered := s.delivered + [Delivery(s.high[|s.high| - 1], true, |s.pushedHigh|)])
      else
        s.(low := Front(s.low), consumer := Releasing,
           delivered := s.delivered + [Delivery(s.low[|s.low| - 1], false, |s.pushedHigh|)])
    case Release => s.(mutex := Free, consumer := Handling)
    case Handled => s.(consumer := Checking)
    case Stop => s.(keepRunning := false)
  }

  // ---- the invariant ----

  /** Producers that have pushed but not yet incremented the semaphore. */
  function InTransit(ps: seq<Producer>): nat {
    if |ps| == 0 then 0 else InTransit(ps[..|ps| - 1]) + if ps[|ps| - 1].Unlocking? || ps[|ps| - 1].Signalling? then 1 else 0
  }

  /** A consumer that has decremented the semaphore but not yet popped. */
  function Taking(c: Consumer): nat { if c == Acquiring || c == Popping then 1 else 0 }

  function Reversed<T>(s: seq<T>): seq<T> {
    if |s| == 0 then [] else [s[|s| - 1]] + Reversed(s[..|s| - 1])
  }

  /** The items delivered from one of the queues, in order. */
  function From(ds: seq<Delivery>, high: bool): seq<Item> {
    if |ds| == 0 then [] else From(ds[..|ds| - 1], high) + if ds[|ds| - 1].high == high then [ds[|ds| - 1].item] else []
  }

  /** Every queued item is accounted for by the semaphore, a producer that is about to signal it, or the consumer
      that is about to take one. */
  predicate Counted(s: State) {
    |s.high| + |s.low| == s.semaphore + InTransit(s.producers) + Taking(s.consumer)
  }

  /** The mutex is held by exactly the thread that is between lock and unlock. */
  ghost predicate Exclusive(s: State) {
    (forall i :: 0 <= i < |s.producers| ==> (s.producers[i].Pushing? || s.producers[i].Unlocking? <==> s.mutex == HeldBy(i))) &&
    (s.consumer == Popping || s.consumer == Releasing <==> s.mutex == HeldByConsumer)
  }

  /** First in, first out, exactly once: what was put into a queue is what was delivered from it, followed by what
      is still there. */
  predicate Fifo(s: State) {
    s.pushedHigh == From(s.delivered, true) + Reversed(s.high) && s.pushedLow == From(s.delivered, false) + Reversed(s.low)
  }

  /** A low priority item is delivered only when all high priority items put in so far have been delivered. */
  ghost predicate Priority(s: State) {
    forall k :: 0 <= k < |s.delivered| && !s.delivered[k].high ==> |From(s.delivered[..k], true)| == s.delivered[k].highSoFar
  }

  ghost predicate Inv(s: State) { Counted(s) && Exclusive(s) && Fifo(s) && Priority(s) }

  lemma {:induction false} IdleInTransit(n: nat)
    ensures InTransit(seq(n, i => Idle)) == 0
  {
    if n > 0 {
      var s: seq<Producer> := seq(n, i => Idle);
      assert s[..n - 1] == seq(n - 1, i => Idle);
      IdleInTransit(n - 1);
    }
  }

  lemma {:induction false} InitInv(n: nat)
    ensures Inv(Init(n))
  {
    IdleInTransit(n);
  }

  function Weight(p: Producer): nat { if p.Unlocking? || p.Signalling? then 1 else 0 }

  lemma {:induction false} InTransitUpdate(ps: seq<Producer>, i: nat, p: Producer)
    requires i < |ps|
    ensures InTransit(ps[i := p]) == InTransit(ps) - Weight(ps[i]) + Weight(p)
  {
    var n := |ps| - 1;
    if i < n {
      InTransitUpdate(ps[..n], i, p);
      assert ps[i := p][..n] == ps[..n][i := p];
    } else {
      assert ps[i := p][..n] == ps[..n];
    }
  }

  lemma {:induction false} ReversedPush<T>(x: T, s: seq<T>)
    ensures Reversed([x] + s) == Reversed(s) + [x]
  {
    if |s| > 0 {
      var n := |s| - 1;
      assert ([x] + s)[..n + 1] == [x] + s[..n];
      ReversedPush(x, s[..n]);
    } else {
      assert [x] + s == [x];
    }
  }

  lemma {:induction false} FromAppend(ds: seq<Delivery>, d: Delivery, high: bool)
    ensures From(ds + [d], high) == From(ds, high) + if d.high == high then [d.item] else []
  {
    assert (ds + [d])[..|ds|] == ds;
  }

  /** No assertion of run() fails. */
  lemma {:induction false} PopSafe(s: State, step: Step)
    requires Inv(s) && Enabled(s, step)
    ensures PopAsserts(s, step)
  {
  }

  lemma {:induction false} CountedKept(s: State, step: Step)
    requires Inv(s) && Enabled(s, step) && PopAsserts(s, step)
    ensures Counted(Next(s, step))
  {
    match step
    case Enqueue(i, item, high) => InTransitUpdate(s.producers, i, Locking(item, high));
    case Lock(i) => InTransitUpdate(s.producers, i, Pushing(s.producers[i].item, s.producers[i].high));
    case Push(i) => InTransitUpdate(s.producers, i, Unlocking);
    case Unlock(i) => InTransitUpdate(s.producers, i, Signalling);
    case Inc(i) => InTransitUpdate(s.producers, i, Idle);
    case _ =>
  }

  lemma {:induction false} Associate(a: seq<Item>, b: seq<Item>, c: seq<Item>)
    ensures a + (b + c) == (a + b) + c
  {
  }

  /** Taking the oldest item of a queue moves it from the waiting to the delivered ones. */
  lemma {:induction false} TakeOldest(pushed: seq<Item>, ds: seq<Delivery>, q: seq<Item>, d: Delivery)
    requires |q| > 0 && d.item == q[|q| - 1] && pushed == From(ds, d.high) + Reversed(q)
    ensures pushed == From(ds + [d], d.high) + Reversed(Front(q)) && From(ds + [d], !d.high) == From(ds, !d.high)
  {
    FromAppend(ds, d, true);
    FromAppend(ds, d, false);
    Associate(From(ds, d.high), [d.item], Reversed(Front(q)));
    assert From(ds, !d.high) + [] == From(ds, !d.high);
  }

  lemma {:induction false} PushNewest(pushed: seq<Item>, delivered: seq<Item>, q: seq<Item>, x: Item)
    requires pushed == delivered + Reversed(q)
    ensures pushed + [x] == delivered + Reversed([x] + q)
  {
    ReversedPush(x, q);
    Associate(delivered, Reversed(q), [x]);
  }

  lemma {:induction false} PriorityAppend(s: State, t: State, d: Delivery)
    requires Priority(s) && t.delivered == s.delivered + [d] && (d.high || |From(s.delivered, true)| == d.highSoFar)
    ensures Priority(t)
  {
    forall k | 0 <= k < |t.delivered| && !t.delivered[k].high
      ensures |From(t.delivered[..k], true)| == t.delivered[k].highSoFar
    {
      assert t.delivered[..k] == if k < |s.delivered| then s.delivered[..k] else s.delivered;
    }
  }

  lemma {:induction false} FifoKept(s: State, step: Step)
    requires Inv(s) && Enabled(s, step) && PopAsserts(s, step)
    ensures Fifo(Next(s, step)) && Priority(Next(s, step))
  {
    hide Counted, Exclusive, From, Reversed, Front;
    var t := Next(s, step);
    if step.Push? {
      var p := s.producers[step.i];
      if p.high {
        PushNewest(s.pushedHigh, From(s.delivered, true), s.high, p.item);
      } else {
        PushNewest(s.pushedLow, From(s.delivered, false), s.low, p.item);
      }
    } else if step.Pop? {
      var d := t.delivered[|s.delivered|];
      if d.high {
        TakeOldest(s.pushedHigh, s.delivered, s.high, d);
      } else {
        TakeOldest(s.pushedLow, s.delivered, s.low, d);
        NothingWaits(s);
      }
      PriorityAppend(s, t, d);
    }
  }

  lemma {:induction false} NothingWaits(s: State)
    requires Fifo(s) && |s.high| == 0
    ensures |From(s.delivered, true)| == |s.pushedHigh|
  {
  }

  lemma {:induction false} StepKeepsInv(s: State, step: Step)
    requires Inv(s) && Enabled(s, step)
    ensures PopAsserts(s, step) && Inv(Next(s, step))
  {
    PopSafe(s, step);
    CountedKept(s, step);
    FifoKept(s, step);
    ExclusiveKept(s, step);
  }

  lemma {:induction false} ExclusiveKept(s: State, step: Step)
    requires Inv(s) && Enabled(s, step) && PopAsserts(s, step)
    ensures Exclusive(Next(s, step))
  {
    hide Counted, Fifo, Priority;
    var t := Next(s, step);
    forall i | 0 <= i < |t.producers|
      ensures t.producers[i].Pushing? || t.producers[i].Unlocking? <==> t.mutex == HeldBy(i)
    {
      assert s.producers[i].Pushing? || s.producers[i].Unlocking? <==> s.mutex == HeldBy(i);
    }
  }

  // ---- all runs ----

  /** A run: each step is possible, and no assertion fails on the way. */
  predicate IsRun(s: State, steps: seq<Step>)
    decreases |steps|
  {
    |steps| == 0 || (Enabled(s, steps[0]) && PopAsserts(s, steps[0]) && IsRun(Next(s, steps[0]), steps[1..]))
  }

  function After(s: State, steps: seq<Step>): State
    requires IsRun(s, steps)
    decreases |steps|
  {
    if |steps| == 0 then s else After(Next(s, steps[0]), steps[1..])
  }

  lemma {:induction false} RunKeepsInv(s: State, steps: seq<Step>)
    requires Inv(s) && IsRun(s, steps)
    ensures Inv(After(s, steps))
    decreases |steps|
  {
    if |steps| > 0 {
      StepKeepsInv(s, steps[0]);
      RunKeepsInv(Next(s, steps[0]), steps[1..]);
    }
  }

  /** After every run of any number of producers: the counting equation, first-in first-out exactly once in each
      queue, priority, and no failing assertion in the next step. */
  lemma {:induction false} EveryRun(n: nat, steps: seq<Step>, next: Step)
    requires IsRun(Init(n), steps)
    ensures var s := After(Init(n), steps);
      Counted(s) && Fifo(s) && Priority(s) && (Enabled(s, next) ==> PopAsserts(s, next))
  {
    InitInv(n);
    RunKeepsInv(Init(n), steps);
    var s := After(Init(n), steps);
    if Enabled(s, next) {
      PopSafe(s, next);
    }
  }

  // ---- from the calls of enqueue to the deliveries ----

  /** The items given to enqueue with the given priority. */
  function Enqueued(steps: seq<Step>, high: bool): multiset<Item> {
    if |steps| == 0 then multiset{}
    else
      var last := steps[|steps| - 1];
      Enqueued(steps[..|steps| - 1], high) + if last.Enqueue? && last.high == high then multiset{last.item} else multiset{}
  }

  /** The last call of enqueue by producer i. */
  function LastCall(steps: seq<Step>, i: nat): Option<(Item, bool)> {
    if |steps| == 0 then None
    else
      var last := steps[|steps| - 1];
      if last.Enqueue? && last.i == i then Some((last.item, last.high)) else LastCall(steps[..|steps| - 1], i)
  }

  /** The items with the given priority, in the order in which their producers hold the mutex and push. */
  function PushOrder(steps: seq<Step>, high: bool): seq<Item> {
    if |steps| == 0 then []
    else
      var before, last := steps[..|steps| - 1], steps[|steps| - 1];
      var call := if last.Push? then LastCall(before, last.i) else None;
      PushOrder(before, high) + if call.Some? && call.value.1 == high then [call.value.0] else []
  }

  /** The item of a producer that has been called and has not pushed yet. */
  function Pending(p: Producer): Option<(Item, bool)> {
    match p
    case Locking(item, high) => Some((item, high))
    case Pushing(item, high) => Some((item, high))
    case _ => None
  }

  function Held(p: Producer, high: bool): multiset<Item> {
    var call := Pending(p);
    if call.Some? && call.value.1 == high then multiset{call.value.0} else multiset{}
  }

  function Underway(ps: seq<Producer>, high: bool): multiset<Item> {
    if |ps| == 0 then multiset{} else Underway(ps[..|ps| - 1], high) + Held(ps[|ps| - 1], high)
  }

  /** Both queues hold what their callers gave to enqueue, in the order of pushing. */
  ghost predicate Traced(s: State, steps: seq<Step>) {
    s.pushedHigh == PushOrder(steps, true) && s.pushedLow == PushOrder(steps, false) &&
    Enqueued(steps, true) == multiset(s.pushedHigh) + Underway(s.producers, true) &&
    Enqueued(steps, false) == multiset(s.pushedLow) + Underway(s.producers, false) &&
    forall i :: 0 <= i < |s.producers| ==> Pending(s.producers[i]).Some? ==> LastCall(steps, i) == Pending(s.producers[i])
  }

  lemma {:induction false} RunSnoc(s: State, steps: seq<Step>, step: Step)
    requires IsRun(s, steps + [step])
    ensures IsRun(s, steps) && var t := After(s, steps);
      Enabled(t, step) && PopAsserts(t, step) && After(s, steps + [step]) == Next(t, step)
    decreases |steps|
  {
    if |steps| == 0 {
      assert steps + [step] == [step];
      assert [step][1..] == [];
    } else {
      assert (steps + [step])[0] == steps[0] && (steps + [step])[1..] == steps[1..] + [step];
      RunSnoc(Next(s, steps[0]), steps[1..], step);
    }
  }

  lemma {:induction false} Exchange<T>(a: multiset<T>, b: multiset<T>, l: multiset<T>, h: multiset<T>, k: multiset<T>)
    requires a + h == b + k
    ensures (a + l) + h == (b + l) + k
  {
    assert (a + l) + h == (a + h) + l;
    assert (b + l) + k == (b + k) + l;
  }

  lemma {:induction false} UnderwayUpdate(ps: seq<Producer>, i: nat, p: Producer, high: bool)
    requires i < |ps|
    ensures Underway(ps[i := p], high) + Held(ps[i], high) == Underway(ps, high) + Held(p, high)
  {
    hide Held;
    var n := |ps| - 1;
    if i < n {
      UnderwayUpdate(ps[..n], i, p, high);
      assert ps[i := p][..n] == ps[..n][i := p];
      Exchange(Underway(ps[..n][i := p], high), Underway(ps[..n], high), Held(ps[n], high), Held(ps[i], high), Held(p, high));
    } else {
      assert ps[i := p][..n] == ps[..n];
    }
  }

  lemma {:induction false} HistorySnoc(steps: seq<Step>, step: Step, high: bool, i: nat)
    ensures Enqueued(steps + [step], high) == Enqueued(steps, high) + if step.Enqueue? && step.high == high then multiset{step.item} else multiset{}
    ensures LastCall(steps + [step], i) == if step.Enqueue? && step.i == i then Some((step.item, step.high)) else LastCall(steps, i)
    ensures PushOrder(steps + [step], high) ==
      PushOrder(steps, high) + var call := if step.Push? then LastCall(steps, step.i) else None;
        if call.Some? && call.value.1 == high then [call.value.0] else []
  {
    assert (steps + [step])[..|steps|] == steps;
  }

  lemma {:induction false} NoneUnderway(n: nat, high: bool)
    ensures Underway(seq(n, i => Idle), high) == multiset{}
  {
    if n > 0 {
      var s: seq<Producer> := seq(n, i => Idle);
      assert s[..n - 1] == seq(n - 1, i => Idle);
      NoneUnderway(n - 1, high);
    }
  }

  lemma {:induction false} Balance<T>(e: multiset<T>, p: multiset<T>, u: multiset<T>, u2: multiset<T>, de: multiset<T>, dp: multiset<T>,
                                       h: multiset<T>, k: multiset<T>)
    requires e == p + u && u2 + h == u + k && de + h == dp + k
    ensures e + de == (p + dp) + u2
  {
    assert (e + de) + h == (p + u) + (de + h) == (p + dp) + (u + k);
    assert ((p + dp) + u2) + h == (p + dp) + (u2 + h);
    forall x: T
      ensures (e + de)[x] == ((p + dp) + u2)[x]
    {
      assert ((e + de) + h)[x] == (((p + dp) + u2) + h)[x];
    }
  }

  function Queue(s: State, high: bool): seq<Item> { if high then s.pushedHigh else s.pushedLow }

  /** What one step adds to the calls and to what has been pushed. */
  function NewCall(step: Step, high: bool): multiset<Item> {
    if step.Enqueue? && step.high == high then multiset{step.item} else multiset{}
  }

  function NewPush(s: State, step: Step, high: bool): seq<Item>
    requires Enabled(s, step)
  {
    if step.Push? && s.producers[step.i].high == high then [s.producers[step.i].item] else []
  }

  predicate OfProducer(step: Step) { step.Enqueue? || step.Lock? || step.Push? || step.Unlock? || step.Inc? }

  lemma {:induction false} StepQueue(s: State, step: Step, high: bool)
    requires Enabled(s, step) && PopAsserts(s, step)
    ensures Queue(Next(s, step), high) == Queue(s, high) + NewPush(s, step, high)
  {
    hide Front;
    assert Queue(s, high) + [] == Queue(s, high);
  }

  lemma {:induction false} StepProducers(s: State, step: Step)
    requires Enabled(s, step) && PopAsserts(s, step)
    ensures var t := Next(s, step);
      if OfProducer(step) then step.i < |s.producers| == |t.producers| && t.producers == s.producers[step.i := t.producers[step.i]]
      else t.producers == s.producers
  {
    hide Front;
  }

  lemma {:induction false} StepPending(s: State, step: Step)
    requires Enabled(s, step) && PopAsserts(s, step) && OfProducer(step)
    ensures Pending(s.producers[step.i]) ==
      if step.Enqueue? then None else if step.Push? then Some((s.producers[step.i].item, s.producers[step.i].high)) else Pending(s.producers[step.i])
    ensures Pending(Next(s, step).producers[step.i]) ==
      if step.Enqueue? then Some((step.item, step.high)) else if step.Push? then None else Pending(s.producers[step.i])
  {
    hide Front;
  }

  lemma {:induction false} SingleItem(x: Item)
    ensures multiset([x]) == multiset{x} && multiset{} + multiset{x} == multiset{x} + multiset{} == multiset{x}
    ensures var none: seq<Item> := []; multiset(none) == multiset{} && multiset(none) + multiset{x} == multiset{x}
  {
  }

  lemma {:induction false} StepCall(s: State, step: Step, high: bool)
    requires Enabled(s, step) && PopAsserts(s, step)
    ensures !OfProducer(step) ==> NewCall(step, high) == multiset{} && NewPush(s, step, high) == []
    ensures OfProducer(step) ==>
      NewCall(step, high) + Held(s.producers[step.i], high) == multiset(NewPush(s, step, high)) + Held(Next(s, step).producers[step.i], high)
  {
    hide Next, Pending;
    if OfProducer(step) {
      StepPending(s, step);
      SingleItem(if step.Enqueue? then step.item else if step.Push? then s.producers[step.i].item else 0);
    }
  }

  lemma {:induction false} TracedQueue(s: State, steps: seq<Step>, step: Step, high: bool)
    requires Traced(s, steps) && Enabled(s, step) && PopAsserts(s, step)
    ensures var t := Next(s, step);
      Queue(t, high) == PushOrder(steps + [step], high) &&
      Enqueued(steps + [step], high) == multiset(Queue(t, high)) + Underway(t.producers, high)
  {
    hide Enqueued, LastCall, PushOrder, Underway, Next, Held;
    var t := Next(s, step);
    HistorySnoc(steps, step, high, 0);
    StepQueue(s, step, high);
    StepProducers(s, step);
    StepCall(s, step, high);
    var u, u2 := Underway(s.producers, high), Underway(t.producers, high);
    var dp := NewPush(s, step, high);
    assert multiset(Queue(s, high) + dp) == multiset(Queue(s, high)) + multiset(dp);
    if OfProducer(step) {
      UnderwayUpdate(s.producers, step.i, t.producers[step.i], high);
      Balance(Enqueued(steps, high), multiset(Queue(s, high)), u, u2, NewCall(step, high), multiset(dp),
              Held(s.producers[step.i], high), Held(t.producers[step.i], high));
    }
  }

  /** A call is known to be the last of its producer until it has pushed. */
  lemma {:induction false} CallsStep(s: State, steps: seq<Step>, step: Step)
    requires Traced(s, steps) && Enabled(s, step) && PopAsserts(s, step)
    ensures var t := Next(s, step);
      forall i :: 0 <= i < |t.producers| ==> Pending(t.producers[i]).Some? ==> LastCall(steps + [step], i) == Pending(t.producers[i])
  {
    hide Enqueued, LastCall, PushOrder, Underway, Front, Held;
    var t := Next(s, step);
    forall i | 0 <= i < |t.producers| && Pending(t.producers[i]).Some?
      ensures LastCall(steps + [step], i) == Pending(t.producers[i])
    {
      HistorySnoc(steps, step, true, i);
      assert Pending(s.producers[i]).Some? ==> LastCall(steps, i) == Pending(s.producers[i]);
    }
  }

  lemma {:induction false} TracedStep(s: State, steps: seq<Step>, step: Step)
    requires Traced(s, steps) && Enabled(s, step) && PopAsserts(s, step)
    ensures Traced(Next(s, step), steps + [step])
  {
    hide Enqueued, LastCall, PushOrder, Underway, Next, Pending;
    TracedQueue(s, steps, step, true);
    TracedQueue(s, steps, step, false);
    CallsStep(s, steps, step);
  }

  lemma {:induction false} RunTraced(n: nat, steps: seq<Step>)
    requires IsRun(Init(n), steps)
    ensures Traced(After(Init(n), steps), steps)
    decreases |steps|
  {
    hide Underway;
    if |steps| == 0 {
      NoneUnderway(n, true);
      NoneUnderway(n, false);
    } else {
      var before, last := steps[..|steps| - 1], steps[|steps| - 1];
      assert steps == before + [last];
      RunSnoc(Init(n), before, last);
      RunTraced(n, before);
      TracedStep(After(Init(n), before), before, last);
    }
  }

  /** After every run: what has been delivered with each priority, and then what waits in its queue, oldest first, are the
      items in the order of pushing; and these with the items of calls under way are the items given to enqueue with that
      priority. So each of them is delivered once at most, and nothing else is. */
  lemma {:induction false} EveryRunDelivers(n: nat, steps: seq<Step>)
    requires IsRun(Init(n), steps)
    ensures var s := After(Init(n), steps);
      From(s.delivered, true) + Reversed(s.high) == PushOrder(steps, true) &&
      From(s.delivered, false) + Reversed(s.low) == PushOrder(steps, false) &&
      multiset(PushOrder(steps, true)) + Underway(s.producers, true) == Enqueued(steps, true) &&
      multiset(PushOrder(steps, false)) + Underway(s.producers, false) == Enqueued(steps, false)
  {
    InitInv(n);
    RunKeepsInv(Init(n), steps);
    RunTraced(n, steps);
  }

  /** When the consumer takes a low priority item, every high priority item that has been pushed is delivered already; and
      one item is delivered at a time. */
  lemma {:induction false} LowWaitsForHigh(n: nat, steps: seq<Step>)
    requires IsRun(Init(n), steps + [Pop])
    ensures IsRun(Init(n), steps) && var s, t := After(Init(n), steps), After(Init(n), steps + [Pop]);
      |t.delivered| == |s.delivered| + 1 && t.delivered[..|s.delivered|] == s.delivered &&
      (!t.delivered[|s.delivered|].high ==> From(s.delivered, true) == PushOrder(steps, true))
  {
    hide From, PushOrder, Enqueued, Front;
    RunSnoc(Init(n), steps, Pop);
    EveryRunDelivers(n, steps);
    var s := After(Init(n), steps);
    assert s.high == [] ==> From(s.delivered, true) + Reversed(s.high) == From(s.delivered, true);
  }

  // ---- no lost wake-up ----

  predicate AllIdle(s: State) { forall i :: 0 <= i < |s.producers| ==> s.producers[i].Idle? }

  /** Nothing to do: no call of enqueue is under way, and the consumer waits for one or has stopped. */
  predicate Quiet(s: State) { AllIdle(s) && ((s.consumer == Waiting && s.semaphore == 0) || s.consumer == Stopped) }

  lemma {:induction false} NoneInTransit(ps: seq<Producer>)
    requires forall i :: 0 <= i < |ps| ==> ps[i].Idle?
    ensures InTransit(ps) == 0
  {
    if |ps| > 0 {
      NoneInTransit(ps[..|ps| - 1]);
    }
  }

  /** The step of a thread that is not blocked on the mutex, or the step of the mutex holder. */
  function ProducerStep(p: Producer, i: nat): Step {
    match p
    case Idle => Stop
    case Locking(_, _) => Lock(i)
    case Pushing(_, _) => Push(i)
    case Unlocking => Unlock(i)
    case Signalling => Inc(i)
  }

  function ConsumerStep(c: Consumer): Step {
    match c
    case Checking => Check
    case Waiting => Dec
    case Acquiring => Acquire
    case Popping => Pop
    case Releasing => Release
    case Handling => Handled
    case Stopped => Stop
  }

  /** The system never gets stuck: in every reachable state some thread can go on, unless nothing is under way; and
      then, if the consumer still waits, both queues are empty. */
  lemma {:induction false} NeverStuck(s: State)
    requires Inv(s) && (s.mutex.HeldBy? ==> s.mutex.producer < |s.producers|)
    ensures !Quiet(s) ==> exists step: Step :: !step.Enqueue? && !step.Stop? && Enabled(s, step)
    ensures Quiet(s) && s.consumer == Waiting ==> s.high == [] && s.low == []
  {
    if Quiet(s) {
      NoneInTransit(s.producers);
    } else if s.mutex.HeldBy? {
      assert Enabled(s, ProducerStep(s.producers[s.mutex.producer], s.mutex.producer));
    } else if s.mutex == HeldByConsumer {
      assert Enabled(s, ConsumerStep(s.consumer));
    } else if !AllIdle(s) {
      var i :| 0 <= i < |s.producers| && !s.producers[i].Idle?;
      assert Enabled(s, ProducerStep(s.producers[i], i));
    } else {
      assert Enabled(s, ConsumerStep(s.consumer));
    }
  }

  lemma {:induction false} HolderExists(s: State, steps: seq<Step>)
    requires IsRun(s, steps) && (s.mutex.HeldBy? ==> s.mutex.producer < |s.producers|)
    ensures var t := After(s, steps); |t.producers| == |s.producers| && (t.mutex.HeldBy? ==> t.mutex.producer < |t.producers|)
    decreases |steps|
  {
    if |steps| > 0 {
      HolderExists(Next(s, steps[0]), steps[1..]);
    }
  }

  lemma {:induction false} EveryRunGoesOn(n: nat, steps: seq<Step>)
    requires IsRun(Init(n), steps)
    ensures var s := After(Init(n), steps);
      (!Quiet(s) ==> exists step: Step :: !step.Enqueue? && !step.Stop? && Enabled(s, step)) &&
      (Quiet(s) && s.consumer == Waiting ==> s.high == [] && s.low == [])
  {
    InitInv(n);
    RunKeepsInv(Init(n), steps);
    HolderExists(Init(n), steps);
    NeverStuck(After(Init(n), steps));
  }
}
