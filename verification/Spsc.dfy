/**
 The single-producer single-consumer ring buffer. A state machine interleaves
 the atomic steps of a producer, a consumer and an observer, each holding stale
 copies of the counters of the others; a class has the methods themselves, each
 proved to be an undisturbed run of its steps.
 */
module Spsc {

  // Counters are 64-bit words.
  const WORD: nat := 0x1_0000_0000_0000_0000

  predicate PowerOfTwo(n: nat) {
    n == 1 || (n > 0 && n % 2 == 0 && PowerOfTwo(n / 2))
  }

  predicate IsCapacity(c: nat) {
    2 <= c < WORD && PowerOfTwo(c)
  }

  /** Where a thread is inside a call, with its local copies of the counters. */
  datatype Producer<T> =
    | ProducerIdle
    | TailLoaded(t: nat, item: T)
    | RoomSeen(t: nat, item: T)
    | SlotWritten(t: nat, item: T)

  datatype Consumer<T> =
    | ConsumerIdle
    | HeadLoaded(h: nat)
    | ItemSeen(h: nat)
    | ItemCopied(h: nat, item: T)

  /** `at` counts the items behind the loaded word. */
  datatype Observer =
    | ObserverIdle
    | SizeTail(t: nat, at: nat)
    | EmptyHead(h: nat, at: nat)
    | EmptyTail(t: nat, at: nat)

  /** The shared memory, the three threads, and the history of both ends. */
  datatype State<T> = State(buffer: seq<T>, head: nat, tail: nat,
                            producer: Producer<T>, consumer: Consumer<T>, observer: Observer,
                            pushed: seq<T>, popped: seq<T>)

  /**
   A test that follows a load uses only local copies, so it belongs to the step of
   the load. The two loads of `empty` are operands of one comparison, so either
   may come first.
   */
  datatype Action<T> =
    | LoadOwnTail(item: T) | LoadHead | WriteSlot | StoreTail
    | LoadOwnHead | LoadTail | CopyItem | StoreHead
    | CommitPeeked | DropPeeked
    | SizeLoadTail | SizeLoadHead
    | EmptyLoadHead | EmptyLoadTail | EmptyTailFirst | EmptyHeadLast

  datatype Output<T> =
    | Silent
    | Accepted(item: T) | Refused(refused: T)
    | Delivered(out: T) | NothingThere
    | Size(size: nat) | Empty(empty: bool)

  datatype Next<T> = Next(state: State<T>, output: Output<T>)

  /** Subtraction of unsigned words. */
  function Sub(a: nat, b: nat): nat {
    (a - b) % WORD
  }

  function Init<T>(buffer: seq<T>): State<T> {
    State(buffer, 0, 0, ProducerIdle, ConsumerIdle, ObserverIdle, [], [])
  }

  /** One atomic step; an action that its thread is not ready for does nothing. */
  function Step<T>(s: State<T>, a: Action<T>): (n: Next<T>)
    requires s.buffer != []
    ensures |n.state.buffer| == |s.buffer|
  {
    var c := |s.buffer|;
    if a.LoadOwnTail? && s.producer.ProducerIdle? then
      Next(s.(producer := TailLoaded(s.tail, a.item)), Silent)
    else if a.LoadHead? && s.producer.TailLoaded? then
      if Sub(s.producer.t, s.head) >= c
      then Next(s.(producer := ProducerIdle), Refused(s.producer.item))
      else Next(s.(producer := RoomSeen(s.producer.t, s.producer.item)), Silent)
    else if a.WriteSlot? && s.producer.RoomSeen? then
      var p := s.producer;
      Next(s.(buffer := s.buffer[p.t % c := p.item], producer := SlotWritten(p.t, p.item)), Silent)
    else if a.StoreTail? && s.producer.SlotWritten? then
      Next(s.(tail := (s.producer.t + 1) % WORD, producer := ProducerIdle, pushed := s.pushed + [s.producer.item]),
           Accepted(s.producer.item))
    else if a.LoadOwnHead? && s.consumer.ConsumerIdle? then
      Next(s.(consumer := HeadLoaded(s.head)), Silent)
    else if a.LoadTail? && s.consumer.HeadLoaded? then
      if s.consumer.h >= s.tail
      then Next(s.(consumer := ConsumerIdle), NothingThere)
      else Next(s.(consumer := ItemSeen(s.consumer.h)), Silent)
    else if a.CopyItem? && s.consumer.ItemSeen? then
      Next(s.(consumer := ItemCopied(s.consumer.h, s.buffer[s.consumer.h % c])), Silent)
    else if a.StoreHead? && s.consumer.ItemCopied? then
      Next(s.(head := (s.consumer.h + 1) % WORD, consumer := ConsumerIdle, popped := s.popped + [s.consumer.item]),
           Delivered(s.consumer.item))
    else if a.CommitPeeked? && s.consumer.ItemSeen? then
      Next(s.(head := (s.head + 1) % WORD, consumer := ConsumerIdle, popped := s.popped + [s.buffer[s.consumer.h % c]]),
           Delivered(s.buffer[s.consumer.h % c]))
    else if a.DropPeeked? && s.consumer.ItemSeen? then
      Next(s.(consumer := ConsumerIdle), Silent)
    else if a.SizeLoadTail? && s.observer.ObserverIdle? then
      Next(s.(observer := SizeTail(s.tail, |s.pushed|)), Silent)
    else if a.SizeLoadHead? && s.observer.SizeTail? then
      Next(s.(observer := ObserverIdle), Size(if s.observer.t >= s.head then s.observer.t - s.head else 0))
    else if a.EmptyLoadHead? && s.observer.ObserverIdle? then
      Next(s.(observer := EmptyHead(s.head, |s.popped|)), Silent)
    else if a.EmptyLoadTail? && s.observer.EmptyHead? then
      Next(s.(observer := ObserverIdle), Empty(s.observer.h >= s.tail))
    else if a.EmptyTailFirst? && s.observer.ObserverIdle? then
      Next(s.(observer := EmptyTail(s.tail, |s.pushed|)), Silent)
    else if a.EmptyHeadLast? && s.observer.EmptyTail? then
      Next(s.(observer := ObserverIdle), Empty(s.head >= s.observer.t))
    else
      Next(s, Silent)
  }

  // ---------- Arithmetic of slots ----------

  lemma {:induction false} PowerDivides(c: nat, w: nat)
    requires PowerOfTwo(c) && PowerOfTwo(w) && c <= w
    ensures w % c == 0
  {
    if c > 1 {
      PowerDivides(c / 2, w / 2);
      HalvesDivide(c / 2, w / 2);
    }
  }

  lemma HalvesDivide(c: nat, w: nat)
    requires c > 0 && w % c == 0
    ensures (2 * w) % (2 * c) == 0
  {
    var m := w / c;
    assert w == m * c;
    assert 2 * w == m * (2 * c) + 0;
    QuotientIsUnique(m, 2 * c, 0);
  }

  lemma Multiples(d: int, c: nat)
    requires c > 0
    ensures d >= 1 ==> d * c >= c
    ensures d <= -1 ==> d * c + c <= 0
  {
  }

  lemma QuotientIsUnique(q: int, c: nat, r: nat)
    requires r < c
    ensures (q * c + r) % c == r
  {
    var x := q * c + r;
    assert x == (x / c) * c + x % c;
    assert (q - x / c) * c == x % c - r;
    Multiples(q - x / c, c);
  }

  /** The slot of a counter does not depend on how often the word has wrapped. */
  lemma SlotOfWord(n: nat, c: nat)
    requires IsCapacity(c)
    ensures (n % WORD) % c == n % c
  {
    WordIsPower();
    PowerDivides(c, WORD);
    var m, q, r := WORD / c, n / WORD, n % WORD;
    assert WORD == m * c;
    assert n == q * (m * c) + r;
    assert r == (r / c) * c + r % c;
    assert n == (q * m + r / c) * c + r % c;
    QuotientIsUnique(q * m + r / c, c, r % c);
  }

  lemma {:induction false} PowersMultiply(a: nat, b: nat)
    requires PowerOfTwo(a) && PowerOfTwo(b)
    ensures PowerOfTwo(a * b)
  {
    if a > 1 {
      PowersMultiply(a / 2, b);
      assert a * b == 2 * ((a / 2) * b);
      assert a * b > 0;
    }
  }

  lemma WordIsPower()
    ensures PowerOfTwo(WORD)
  {
    assert PowerOfTwo(0x1_0000);
    PowersMultiply(0x1_0000, 0x1_0000);
    PowersMultiply(0x1_0000_0000, 0x1_0000_0000);
  }

  /** Counters less than a whole ring apart use different slots. */
  lemma SlotsDiffer(i: nat, j: nat, c: nat)
    requires i < j < i + c
    ensures i % c != j % c
  {
    assert i == (i / c) * c + i % c && j == (j / c) * c + j % c;
    assert j - i == (j / c - i / c) * c + (j % c - i % c);
    Multiples(j / c - i / c, c);
  }

  // ---------- Safety of every interleaving ----------

  ghost predicate ProducerOk<T>(s: State<T>)
    requires s.buffer != []
  {
    var p, unread := s.producer, |s.pushed| - |s.popped|;
    match p
    case ProducerIdle => true
    case TailLoaded(t, _) => t == s.tail
    case RoomSeen(t, _) => t == s.tail && unread < |s.buffer|
    case SlotWritten(t, item) => t == s.tail && unread < |s.buffer| && s.buffer[t % |s.buffer|] == item
  }

  ghost predicate ConsumerOk<T>(s: State<T>) {
    var unread := |s.pushed| - |s.popped|;
    match s.consumer
    case ConsumerIdle => true
    case HeadLoaded(h) => h == s.head
    case ItemSeen(h) => h == s.head && unread > 0
    case ItemCopied(h, item) => h == s.head && unread > 0 && item == s.pushed[|s.popped|]
  }

  ghost predicate ObserverOk<T>(s: State<T>) {
    match s.observer
    case ObserverIdle => true
    case SizeTail(t, at) => t == at % WORD && at <= |s.pushed| && at <= |s.popped| + |s.buffer|
    case EmptyHead(h, at) => h == at % WORD && at <= |s.popped|
    case EmptyTail(t, at) => t == at % WORD && at <= |s.pushed|
  }

  /** The words count both ends, the popped items are the first pushed ones, and the rest is in the ring. */
  ghost predicate Safe<T>(s: State<T>) {
    && IsCapacity(|s.buffer|)
    && s.head == |s.popped| % WORD && s.tail == |s.pushed| % WORD
    && s.popped <= s.pushed && |s.pushed| <= |s.popped| + |s.buffer|
    && (forall i :: |s.popped| <= i < |s.pushed| ==> s.buffer[i % |s.buffer|] == s.pushed[i])
    && ProducerOk(s) && ConsumerOk(s) && ObserverOk(s)
  }

  /** Unsigned subtraction of the words gives the true distance, wrapped or not. */
  lemma SubIsDistance(a: nat, b: nat)
    requires b <= a < b + WORD
    ensures Sub(a % WORD, b % WORD) == a - b
  {
  }

  lemma NextWordDiffers(n: nat)
    requires n < WORD
    ensures (n + 1) % WORD != n
  {
  }

  lemma NextWord(n: nat)
    ensures (n % WORD + 1) % WORD == (n + 1) % WORD
  {
  }

  /** The unread items straddle a wrap of the counters. */
  predicate Straddles<T>(s: State<T>) {
    |s.popped| / WORD < |s.pushed| / WORD
  }

  /** The emptiness test of the consumer is right exactly while no wrap lies between the counters. */
  lemma EmptinessTest<T>(s: State<T>)
    requires Safe(s)
    ensures s.head < s.tail <==> |s.popped| < |s.pushed| && !Straddles(s)
  {
    var a, b := |s.popped|, |s.pushed|;
    assert a == (a / WORD) * WORD + a % WORD && b == (b / WORD) * WORD + b % WORD;
  }

  /** The slot about to be written holds no unread item, and is not the one about to be read. */
  lemma NoSlotRace<T>(s: State<T>)
    requires Safe(s) && s.producer.RoomSeen?
    ensures forall i :: |s.popped| <= i < |s.pushed| ==> i % |s.buffer| != s.producer.t % |s.buffer|
    ensures s.consumer.ItemSeen? ==> s.consumer.h % |s.buffer| != s.producer.t % |s.buffer|
  {
    var c := |s.buffer|;
    SlotOfWord(|s.pushed|, c);
    SlotOfWord(|s.popped|, c);
    forall i | |s.popped| <= i < |s.pushed|
      ensures i % c != s.producer.t % c
    {
      SlotsDiffer(i, |s.pushed|, c);
    }
  }

  lemma WriteKeepsSafe<T>(s: State<T>)
    requires Safe(s) && s.producer.RoomSeen?
    ensures Safe(Step(s, WriteSlot).state)
  {
    NoSlotRace(s);
  }

  lemma PublishKeepsSafe<T>(s: State<T>)
    requires Safe(s) && s.producer.SlotWritten?
    ensures Safe(Step(s, StoreTail).state)
  {
    hide IsCapacity;
    SlotOfWord(|s.pushed|, |s.buffer|);
    NextWord(|s.pushed|);
    var r := Step(s, StoreTail).state;
    forall i | |s.popped| <= i < |r.pushed|
      ensures s.buffer[i % |s.buffer|] == r.pushed[i]
    {
      if i < |s.pushed| {
        assert r.pushed[i] == s.pushed[i];
      }
    }
  }

  /** What the consumer reads is the oldest unread item. */
  lemma ReadsOldest<T>(s: State<T>)
    requires Safe(s) && s.consumer.ItemSeen?
    ensures s.buffer[s.consumer.h % |s.buffer|] == s.pushed[|s.popped|]
  {
    SlotOfWord(|s.popped|, |s.buffer|);
  }

  lemma ReleaseKeepsSafe<T>(s: State<T>, a: Action<T>)
    requires Safe(s) && ((a.StoreHead? && s.consumer.ItemCopied?) || (a.CommitPeeked? && s.consumer.ItemSeen?))
    ensures Safe(Step(s, a).state)
    ensures Step(s, a).output == Delivered(s.pushed[|s.popped|])
  {
    if a.CommitPeeked? {
      ReadsOldest(s);
    }
    NextWord(|s.popped|);
  }

  lemma StepKeepsSafe<T>(s: State<T>, a: Action<T>)
    requires Safe(s)
    ensures Safe(Step(s, a).state)
  {
    hide PowerOfTwo, Straddles;
    if a.WriteSlot? && s.producer.RoomSeen? {
      WriteKeepsSafe(s);
    } else if a.StoreTail? && s.producer.SlotWritten? {
      PublishKeepsSafe(s);
    } else if (a.StoreHead? && s.consumer.ItemCopied?) || (a.CommitPeeked? && s.consumer.ItemSeen?) {
      ReleaseKeepsSafe(s, a);
    } else if a.CopyItem? && s.consumer.ItemSeen? {
      ReadsOldest(s);
    } else if a.LoadHead? && s.producer.TailLoaded? {
      SubIsDistance(|s.pushed|, |s.popped|);
    } else if a.LoadTail? && s.consumer.HeadLoaded? {
      EmptinessTest(s);
    }
  }

  // ---------- Verdicts ----------

  /** A push is refused exactly if the ring is full when the producer loads the head. */
  lemma RefusedIfFull<T>(s: State<T>)
    requires Safe(s) && s.producer.TailLoaded?
    ensures Step(s, LoadHead).output
            == if |s.pushed| == |s.popped| + |s.buffer| then Refused(s.producer.item) else Silent
  {
    SubIsDistance(|s.pushed|, |s.popped|);
  }

  /** A pop finds nothing exactly if the ring is empty when the consumer loads the tail, or straddles a wrap. */
  lemma NothingIfEmpty<T>(s: State<T>)
    requires Safe(s) && s.consumer.HeadLoaded?
    ensures Step(s, LoadTail).output == NothingThere <==> s.pushed == s.popped || Straddles(s)
  {
    EmptinessTest(s);
    assert |s.popped| == |s.pushed| ==> s.popped == s.pushed;
  }

  lemma SafeBounds<T>(s: State<T>)
    requires Safe(s)
    ensures 2 <= |s.buffer| < WORD && |s.popped| <= |s.pushed| <= |s.popped| + |s.buffer|
    ensures s.head == |s.popped| % WORD && s.tail == |s.pushed| % WORD
    ensures s.popped == s.pushed[..|s.popped|]
  {
  }

  lemma ObserverIsOk<T>(s: State<T>)
    requires Safe(s)
    ensures ObserverOk(s)
  {
  }

  /**
   The head has not wrapped, and will not when the item that the consumer has seen
   is popped. Every reachable state is like that, because the consumer sees an item
   only while the head is below the tail as words.
   */
  ghost predicate HeadUnwrapped<T>(s: State<T>) {
    |s.popped| + (if s.consumer.ItemSeen? || s.consumer.ItemCopied? then 1 else 0) < WORD
  }

  lemma StepKeepsUnwrapped<T>(s: State<T>, a: Action<T>)
    requires Safe(s) && HeadUnwrapped(s)
    ensures HeadUnwrapped(Step(s, a).state)
  {
    hide PowerOfTwo, ProducerOk, ObserverOk;
    SafeBounds(s);
  }

  /** With the head unwrapped, the unread items straddle a wrap exactly if the tail has wrapped. */
  lemma TailWrapped<T>(s: State<T>)
    requires Safe(s) && HeadUnwrapped(s)
    ensures s.head == |s.popped| && |s.pushed| < 2 * WORD
    ensures Straddles(s) <==> |s.pushed| >= WORD
    ensures s.tail == |s.pushed| - if Straddles(s) then WORD else 0
  {
    hide Safe;
    SafeBounds(s);
  }

  /**
   The approximate size is what had been pushed when the tail was loaded less what
   has been popped when the head is, or 0 if that is negative or the tail had wrapped.
   So it never exceeds the size; if nothing was pushed since the tail was loaded, it
   is exact until the unread items straddle a wrap.
   */
  lemma SizeIsLowerBound<T>(s: State<T>)
    requires Safe(s) && HeadUnwrapped(s) && s.observer.SizeTail?
    ensures var o := Step(s, SizeLoadHead).output;
            && o == Size(if |s.popped| < s.observer.at < WORD then s.observer.at - |s.popped| else 0)
            && o.size <= |s.pushed| - |s.popped| <= |s.buffer|
            && (s.observer.at == |s.pushed| ==> (o.size == |s.pushed| - |s.popped| <==> !Straddles(s)))
  {
    hide PowerOfTwo, ProducerOk, ConsumerOk, Safe, Straddles;
    SafeBounds(s);
    TailWrapped(s);
    assert ObserverOk(s) by { ObserverIsOk(s); }
  }

  /**
   With the tail loaded first, `empty` only tells that everything pushed before
   that load has been popped, or that the tail had wrapped by then; the queue is
   empty then if nothing was pushed since and the unread items straddle no wrap.
   */
  lemma EmptyTailFirstMeans<T>(s: State<T>)
    requires Safe(s) && HeadUnwrapped(s) && s.observer.EmptyTail?
    ensures Step(s, EmptyHeadLast).output == Empty(s.observer.at <= |s.popped| || s.observer.at >= WORD)
    ensures s.observer.at == |s.pushed| ==>
              (Step(s, EmptyHeadLast).output == Empty(true) <==> s.pushed == s.popped || Straddles(s))
  {
    hide PowerOfTwo, ProducerOk, ConsumerOk, Safe, Straddles;
    SafeBounds(s);
    TailWrapped(s);
    assert ObserverOk(s) by { ObserverIsOk(s); }
    assert |s.popped| == |s.pushed| ==> s.popped == s.pushed;
  }

  /**
   With the head loaded first, `empty` tells that nothing was pushed beyond what had
   been popped at that load, up to a wrap of the tail; a queue that is reported
   empty is empty exactly if the unread items straddle no wrap.
   */
  lemma EmptyIsTrue<T>(s: State<T>)
    requires Safe(s) && HeadUnwrapped(s) && s.observer.EmptyHead?
    ensures Step(s, EmptyLoadTail).output
            == Empty(s.observer.at >= |s.pushed| - if Straddles(s) then WORD else 0)
    ensures Step(s, EmptyLoadTail).output == Empty(true) ==> (s.pushed == s.popped <==> !Straddles(s))
  {
    hide PowerOfTwo, ProducerOk, ConsumerOk, Safe, Straddles;
    SafeBounds(s);
    TailWrapped(s);
    assert ObserverOk(s) by { ObserverIsOk(s); }
    assert |s.popped| == |s.pushed| ==> s.popped == s.pushed;
  }

  // ---------- Runs ----------

  datatype Trace<T> = Trace(state: State<T>, outputs: seq<Output<T>>)

  function Run<T>(s: State<T>, actions: seq<Action<T>>): Trace<T>
    requires s.buffer != []
    decreases |actions|
  {
    if actions == [] then Trace(s, [])
    else
      var n := Step(s, actions[0]);
      var r := Run(n.state, actions[1..]);
      Trace(r.state, [n.output] + r.outputs)
  }

  function AcceptedOnce<T>(o: Output<T>): seq<T> {
    if o.Accepted? then [o.item] else []
  }

  function DeliveredOnce<T>(o: Output<T>): seq<T> {
    if o.Delivered? then [o.out] else []
  }

  function AcceptedOf<T>(outputs: seq<Output<T>>): seq<T> {
    if outputs == [] then [] else AcceptedOnce(outputs[0]) + AcceptedOf(outputs[1..])
  }

  function DeliveredOf<T>(outputs: seq<Output<T>>): seq<T> {
    if outputs == [] then [] else DeliveredOnce(outputs[0]) + DeliveredOf(outputs[1..])
  }

  lemma FirstOutput<T>(o: Output<T>, rest: seq<Output<T>>)
    ensures AcceptedOf([o] + rest) == AcceptedOnce(o) + AcceptedOf(rest)
    ensures DeliveredOf([o] + rest) == DeliveredOnce(o) + DeliveredOf(rest)
  {
    assert ([o] + rest)[1..] == rest;
  }

  lemma {:induction false} RunKeepsSafe<T>(s: State<T>, actions: seq<Action<T>>)
    requires Safe(s)
    ensures Safe(Run(s, actions).state)
    decreases |actions|
  {
    if actions != [] {
      StepKeepsSafe(s, actions[0]);
      RunKeepsSafe(Step(s, actions[0]).state, actions[1..]);
    }
  }

  lemma {:induction false} RunKeepsUnwrapped<T>(s: State<T>, actions: seq<Action<T>>)
    requires Safe(s) && HeadUnwrapped(s)
    ensures Safe(Run(s, actions).state) && HeadUnwrapped(Run(s, actions).state)
    decreases |actions|
  {
    if actions != [] {
      hide Step, Safe, HeadUnwrapped;
      SafeBounds(s);
      StepKeepsSafe(s, actions[0]);
      StepKeepsUnwrapped(s, actions[0]);
      RunKeepsUnwrapped(Step(s, actions[0]).state, actions[1..]);
    }
  }

  /** The history is what the calls returned. */
  lemma {:induction false} RunHistory<T>(s: State<T>, actions: seq<Action<T>>)
    requires s.buffer != []
    ensures var r := Run(s, actions);
            && |r.state.buffer| == |s.buffer|
            && r.state.pushed == s.pushed + AcceptedOf(r.outputs)
            && r.state.popped == s.popped + DeliveredOf(r.outputs)
    decreases |actions|
  {
    if actions != [] {
      hide Step, AcceptedOf, DeliveredOf, AcceptedOnce, DeliveredOnce;
      var n := Step(s, actions[0]);
      StepHistory(s, actions[0]);
      RunHistory(n.state, actions[1..]);
      var outputs := Run(n.state, actions[1..]).outputs;
      FirstOutput(n.output, outputs);
      Associates(s.pushed, AcceptedOnce(n.output), AcceptedOf(outputs));
      Associates(s.popped, DeliveredOnce(n.output), DeliveredOf(outputs));
    }
  }

  lemma Associates<T>(a: seq<T>, b: seq<T>, c: seq<T>)
    ensures a + (b + c) == (a + b) + c
  {
  }

  lemma StepHistory<T>(s: State<T>, a: Action<T>)
    requires s.buffer != []
    ensures var n := Step(s, a);
            && n.state.pushed == s.pushed + AcceptedOnce(n.output)
            && n.state.popped == s.popped + DeliveredOnce(n.output)
  {
  }

  /**
   In every interleaving, however long: what the consumer was given is a prefix
   of what the producer was told is accepted, at most a ring behind it, and the
   items in between are in their slots.
   */
  lemma QueueIsFifo<T>(buffer: seq<T>, actions: seq<Action<T>>)
    requires IsCapacity(|buffer|)
    ensures var r := Run(Init(buffer), actions);
            var accepted, delivered := AcceptedOf(r.outputs), DeliveredOf(r.outputs);
            && delivered <= accepted && |accepted| <= |delivered| + |buffer|
            && |r.state.buffer| == |buffer|
            && forall i :: |delivered| <= i < |accepted| ==> r.state.buffer[i % |buffer|] == accepted[i]
  {
    RunKeepsSafe(Init(buffer), actions);
    RunHistory(Init(buffer), actions);
    var r := Run(Init(buffer), actions);
    assert [] + AcceptedOf(r.outputs) == AcceptedOf(r.outputs);
    assert [] + DeliveredOf(r.outputs) == DeliveredOf(r.outputs);
  }

  /**
   So in every interleaving, however long, fewer than 2^64 items are ever delivered:
   the head never wraps, and the tail at most once.
   */
  lemma HeadNeverWraps<T>(buffer: seq<T>, actions: seq<Action<T>>)
    requires IsCapacity(|buffer|)
    ensures var r := Run(Init(buffer), actions);
            |DeliveredOf(r.outputs)| < WORD && |AcceptedOf(r.outputs)| < WORD + |buffer|
  {
    RunKeepsUnwrapped(Init(buffer), actions);
    RunHistory(Init(buffer), actions);
    hide Run, AcceptedOf, DeliveredOf;
    SafeBounds(Run(Init(buffer), actions).state);
  }

  lemma StraddlingStep<T>(s: State<T>, a: Action<T>)
    requires Safe(s) && Straddles(s) && (s.consumer.ConsumerIdle? || s.consumer.HeadLoaded?)
    ensures var n := Step(s, a);
            && Straddles(n.state) && !n.output.Delivered?
            && (n.state.consumer.ConsumerIdle? || n.state.consumer.HeadLoaded?)
  {
    EmptinessTest(s);
    assert |s.pushed| / WORD <= (|s.pushed| + 1) / WORD;
  }

  /** Once the unread items straddle a wrap, an idle consumer never gets another item. */
  lemma {:induction false} StraddlingStalls<T>(s: State<T>, actions: seq<Action<T>>)
    requires Safe(s) && Straddles(s) && (s.consumer.ConsumerIdle? || s.consumer.HeadLoaded?)
    ensures DeliveredOf(Run(s, actions).outputs) == []
    decreases |actions|
  {
    if actions != [] {
      hide Step, Safe, Straddles;
      var n := Step(s, actions[0]);
      StepKeepsSafe(s, actions[0]);
      StraddlingStep(s, actions[0]);
      StraddlingStalls(n.state, actions[1..]);
      FirstOutput(n.output, Run(n.state, actions[1..]).outputs);
    }
  }

  // ---------- Undisturbed calls ----------

  function PushSteps<T>(item: T): seq<Action<T>> {
    [LoadOwnTail(item), LoadHead, WriteSlot, StoreTail]
  }

  function PopSteps<T>(): seq<Action<T>> {
    [LoadOwnHead, LoadTail, CopyItem, StoreHead]
  }

  function PeekCommitSteps<T>(): seq<Action<T>> {
    [LoadOwnHead, LoadTail, CommitPeeked, DropPeeked]
  }

  lemma RunFour<T>(s: State<T>, a: Action<T>, b: Action<T>, c: Action<T>, d: Action<T>)
    requires s.buffer != []
    ensures Run(s, [a, b, c, d]).state == Step(Step(Step(Step(s, a).state, b).state, c).state, d).state
  {
    hide Step;
    var s1 := Step(s, a).state;
    var s2 := Step(s1, b).state;
    var s3 := Step(s2, c).state;
    assert [a, b, c, d][1..] == [b, c, d];
    assert [b, c, d][1..] == [c, d];
    assert [c, d][1..] == [d];
    assert [d][1..] == [];
    assert Run(s3, [d]).state == Step(s3, d).state;
    assert Run(s2, [c, d]).state == Run(s3, [d]).state;
    assert Run(s1, [b, c, d]).state == Run(s2, [c, d]).state;
  }

  function AfterPush<T>(s: State<T>, item: T): (r: State<T>)
    requires s.buffer != []
    ensures |r.buffer| == |s.buffer|
  {
    if |s.pushed| - |s.popped| >= |s.buffer| then s
    else s.(buffer := s.buffer[s.tail % |s.buffer| := item], tail := (s.tail + 1) % WORD, pushed := s.pushed + [item])
  }

  function AfterPop<T>(s: State<T>): State<T> {
    if s.head >= s.tail || |s.popped| >= |s.pushed| then s
    else s.(head := (s.head + 1) % WORD, popped := s.popped + [s.pushed[|s.popped|]])
  }

  lemma UndisturbedPush<T>(s: State<T>, item: T)
    requires Safe(s) && s.producer.ProducerIdle?
    ensures Run(s, PushSteps(item)).state == AfterPush(s, item)
  {
    hide Run;
    RunFour(s, LoadOwnTail(item), LoadHead, WriteSlot, StoreTail);
    SubIsDistance(|s.pushed|, |s.popped|);
  }

  lemma UndisturbedPop<T>(s: State<T>)
    requires Safe(s) && s.consumer.ConsumerIdle?
    ensures Run(s, PopSteps()).state == AfterPop(s)
  {
    hide Run, Straddles, PowerOfTwo;
    RunFour(s, LoadOwnHead, LoadTail, CopyItem, StoreHead);
    EmptinessTest(s);
    OldestSlot(s);
  }

  /** Peeking and then committing comes to the same as popping. */
  lemma UndisturbedPeekCommit<T>(s: State<T>)
    requires Safe(s) && s.consumer.ConsumerIdle?
    ensures Run(s, PeekCommitSteps()).state == AfterPop(s)
  {
    hide Run, Straddles, PowerOfTwo;
    RunFour(s, LoadOwnHead, LoadTail, CommitPeeked, DropPeeked);
    EmptinessTest(s);
    OldestSlot(s);
  }

  lemma OldestSlot<T>(s: State<T>)
    requires Safe(s)
    ensures |s.popped| < |s.pushed| ==> s.buffer[s.head % |s.buffer|] == s.pushed[|s.popped|]
  {
    SlotOfWord(|s.popped|, |s.buffer|);
  }

  // ---------- What happens at the wrap ----------

  lemma {:induction false} RunConcat<T>(s: State<T>, a: seq<Action<T>>, b: seq<Action<T>>)
    requires s.buffer != []
    ensures |Run(s, a).state.buffer| == |s.buffer|
    ensures Run(s, a + b).state == Run(Run(s, a).state, b).state
    decreases |a|
  {
    hide Step;
    if a == [] {
      assert a + b == b;
    } else {
      assert (a + b)[1..] == a[1..] + b;
      RunConcat(Step(s, a[0]).state, a[1..], b);
    }
  }

  /** Nobody inside a call, and everything popped that was pushed. */
  ghost predicate Drained<T>(s: State<T>, n: nat) {
    Safe(s) && s.producer.ProducerIdle? && s.consumer.ConsumerIdle? && |s.pushed| == |s.popped| == n
  }

  lemma PushPopCounts<T>(s: State<T>, x: T, n: nat)
    requires Drained(s, n) && n + 1 < WORD
    ensures AfterPush(s, x).producer.ProducerIdle? && AfterPush(s, x).consumer.ConsumerIdle?
    ensures var r := AfterPop(AfterPush(s, x));
            r.producer.ProducerIdle? && r.consumer.ConsumerIdle? && |r.pushed| == |r.popped| == n + 1
  {
  }

  lemma PushPop<T>(s: State<T>, x: T, n: nat)
    requires Drained(s, n) && n + 1 < WORD
    ensures s.buffer != [] && Drained(Run(s, PushSteps(x) + PopSteps()).state, n + 1)
  {
    hide Run, Safe, AfterPush, AfterPop;
    SafeBounds(s);
    PushPopCounts(s, x, n);
    RunKeepsSafe(s, PushSteps(x));
    UndisturbedPush(s, x);
    var s1 := AfterPush(s, x);
    RunKeepsSafe(s1, PopSteps());
    UndisturbedPop(s1);
    RunConcat(s, PushSteps(x), PopSteps());
  }

  lemma {:induction false} Cycles<T>(buffer: seq<T>, x: T, n: nat) returns (actions: seq<Action<T>>)
    requires IsCapacity(|buffer|) && n < WORD
    ensures Drained(Run(Init(buffer), actions).state, n)
  {
    actions := [];
    if n > 0 {
      hide Run, Drained;
      actions := Cycles(buffer, x, n - 1);
      RunConcat(Init(buffer), actions, PushSteps(x) + PopSteps());
      PushPop(Run(Init(buffer), actions).state, x, n - 1);
      actions := actions + (PushSteps(x) + PopSteps());
    }
  }

  /** After 2^64 pushes, one of them unread, the queue never delivers anything again. */
  lemma StallsAtWrap<T>(buffer: seq<T>, x: T) returns (actions: seq<Action<T>>)
    requires IsCapacity(|buffer|)
    ensures var s := Run(Init(buffer), actions).state;
            && Safe(s) && |s.pushed| == WORD && |s.popped| == WORD - 1
            && forall more :: DeliveredOf(Run(s, more).outputs) == []
  {
    actions := Cycles(buffer, x, WORD - 1);
    var s := Run(Init(buffer), actions).state;
    RunConcat(Init(buffer), actions, PushSteps(x));
    RunKeepsSafe(s, PushSteps(x));
    UndisturbedPush(s, x);
    actions := actions + PushSteps(x);
    forall more
      ensures DeliveredOf(Run(AfterPush(s, x), more).outputs) == []
    {
      StraddlingStalls(AfterPush(s, x), more);
    }
  }

  // ---------- What `empty` may report ----------

  /**
   A run in which `empty`, loading the tail first, reports an empty queue with one
   item unread: between its loads one item is popped and another one pushed.
   */
  lemma EmptyTailFirstMisses<T>(buffer: seq<T>, x: T, y: T) returns (actions: seq<Action<T>>)
    requires IsCapacity(|buffer|)
    ensures var s := Run(Init(buffer), actions).state;
            && Safe(s) && s.observer.EmptyTail?
            && Step(s, EmptyHeadLast).output == Empty(true) && |s.pushed| == |s.popped| + 1
  {
    var s0 := Init(buffer);
    UndisturbedPush(s0, x);
    var s1 := AfterPush(s0, x);
    var look := [EmptyTailFirst];
    var s2 := s1.(observer := EmptyTail(1, 1));
    assert Run(s1, look).state == s2 by {
      assert look[1..] == [];
    }
    var s3 := AfterPop(s2);
    var s4 := AfterPush(s3, y);
    assert Step(s4, EmptyHeadLast).output == Empty(true) && |s4.pushed| == |s4.popped| + 1;
    hide Step, AfterPush, AfterPop;
    RunKeepsSafe(s0, PushSteps(x));
    RunKeepsSafe(s1, look);
    hide Safe;
    UndisturbedPop(s2);
    RunKeepsSafe(s2, PopSteps());
    UndisturbedPush(s3, y);
    RunKeepsSafe(s3, PushSteps(y));
    actions := PushSteps(x) + look + PopSteps() + PushSteps(y);
    RunConcat(s0, PushSteps(x) + look + PopSteps(), PushSteps(y));
    RunConcat(s0, PushSteps(x) + look, PopSteps());
    RunConcat(s0, PushSteps(x), look);
  }

  datatype Option<T> = None | Some(value: T)

  class SpscQueue<T(0)> {
    const buffer: array<T>
    var head: nat
    var tail: nat
    // Everything ever pushed and popped.
    ghost var Pushed: seq<T>
    ghost var Popped: seq<T>

    /** The queue with nobody inside a call. */
    ghost function AtRest(): State<T>
      reads this, buffer
    {
      State(buffer[..], head, tail, ProducerIdle, ConsumerIdle, ObserverIdle, Pushed, Popped)
    }

    ghost predicate Valid()
      reads this, buffer
    {
      Safe(AtRest())
    }

    ghost function Contents(): seq<T>
      requires Valid()
      reads this, buffer
    {
      Pushed[|Popped|..]
    }

    constructor (capacity: nat)
      requires IsCapacity(capacity)
      ensures Valid() && Contents() == [] && Pushed == [] && buffer.Length == capacity
      ensures fresh(buffer)
    {
      buffer := new T[capacity];
      head, tail := 0, 0;
      Pushed, Popped := [], [];
    }

    /** Pushes unless the ring is full. */
    method TryPush(item: T) returns (ok: bool)
      requires Valid()
      modifies this`tail, this`Pushed, buffer
      ensures Valid()
      ensures ok <==> |old(Contents())| < buffer.Length
      ensures Contents() == if ok then old(Contents()) + [item] else old(Contents())
      ensures Pushed == if ok then old(Pushed) + [item] else old(Pushed)
      ensures AtRest() == Run(old(AtRest()), PushSteps(item)).state
    {
      hide Run, Safe;
      RunKeepsSafe(AtRest(), PushSteps(item));
      UndisturbedPush(AtRest(), item);
      SafeBounds(AtRest());
      SubIsDistance(|Pushed|, |Popped|);
      var t, h := tail, head;
      if Sub(t, h) >= buffer.Length {
        return false;
      }
      buffer[t % buffer.Length] := item;
      tail := (t + 1) % WORD;
      Pushed := Pushed + [item];
      assert AtRest() == AfterPush(old(AtRest()), item);
      ok := true;
    }

    /** Pops the oldest item, if there is one and no wrap of the counters hides it. */
    method TryPop() returns (r: Option<T>)
      requires Valid()
      modifies this`head, this`Popped
      ensures Valid()
      ensures r.Some? <==> old(Contents()) != [] && !old(Straddles(AtRest()))
      ensures r.Some? ==> old(Contents()) == [r.value] + Contents() && Popped == old(Popped) + [r.value]
      ensures r.None? ==> Contents() == old(Contents()) && Popped == old(Popped)
      ensures AtRest() == Run(old(AtRest()), PopSteps()).state
    {
      hide Run, Safe, Straddles;
      RunKeepsSafe(AtRest(), PopSteps());
      UndisturbedPop(AtRest());
      SafeBounds(AtRest());
      EmptinessTest(AtRest());
      OldestSlot(AtRest());
      var h, t := head, tail;
      if h >= t {
        return None;
      }
      r := Some(buffer[h % buffer.Length]);
      head := (h + 1) % WORD;
      Popped := Popped + [r.value];
      assert AtRest() == AfterPop(old(AtRest()));
    }

    /** Looks at the oldest item without removing it. */
    method Peek() returns (r: Option<T>)
      requires Valid()
      ensures r == if Contents() == [] || Straddles(AtRest()) then None else Some(Contents()[0])
    {
      hide Safe, Straddles;
      SafeBounds(AtRest());
      EmptinessTest(AtRest());
      OldestSlot(AtRest());
      var h, t := head, tail;
      if h >= t {
        return None;
      }
      r := Some(buffer[h % buffer.Length]);
    }

    /** The queue while its consumer looks at the oldest item. */
    ghost function Peeking(): State<T>
      reads this, buffer
    {
      AtRest().(consumer := ItemSeen(head))
    }

    /** Removes the oldest item, which a peek has just shown. On an empty queue it spoils the counters. */
    method PopCommit()
      requires Valid()
      modifies this`head, this`Popped
      ensures Valid() <==> old(Contents()) != []
      ensures head == (old(head) + 1) % WORD
      ensures old(Contents()) == [] ==> Popped == old(Popped)
      ensures old(Contents()) != [] ==>
                && old(Contents()) == [old(Contents())[0]] + Contents()
                && Popped == old(Popped) + [old(Contents())[0]]
                && AtRest() == Step(old(Peeking()), CommitPeeked).state
    {
      SafeBounds(AtRest());
      if Pushed != Popped {
        assert |Popped| < |Pushed|;
        ReleaseKeepsSafe(Peeking(), CommitPeeked);
        Popped := Popped + [Pushed[|Popped|]];
      } else {
        NextWordDiffers(head);
      }
      hide IsCapacity;
      head := (head + 1) % WORD;
    }
  }
}
