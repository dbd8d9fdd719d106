/**
 The order gateway: every submitted order is stamped with the next sequence
 number and pushed into the ring buffer. End to end, the orders of one price
 level always rest in the order of their stamps.
 */
module Gateway {
  import opened Types
  import opened BookSpec
  import opened BookLaws
  import opened Runs
  import opened Origins
  import Spsc

  // ---------- Time order within a level ----------

  /** Orders at one price rest in the order of their stamps, none of them later than `last`. */
  ghost predicate InTime(q: seq<Entry>, last: Timestamp) {
    && (forall i :: 0 <= i < |q| ==> q[i].timestamp <= last)
    && (forall i, j :: 0 <= i < j < |q| && q[i].price == q[j].price ==> q[i].timestamp < q[j].timestamp)
  }

  ghost predicate BookInTime(book: Book, last: Timestamp) {
    InTime(book.bids, last) && InTime(book.asks, last)
  }

  /** A partial fill leaves the order where it is; a full one only takes the front away. */
  lemma {:induction false} MatchKeepsTime(o: IncomingOrder, left: Quantity, q: seq<Entry>, ev: MatchEvent,
                                          last: Timestamp)
    requires InTime(q, last)
    ensures InTime(Match(o, left, q, ev).queue, last)
    decreases |q|
  {
    if !Done(o, left, q) {
      var f := Fill(o, left, q, ev);
      assert InTime(f.queue, last);
      if |f.queue| < |q| {
        MatchKeepsTime(o, f.left, f.queue, f.event, last);
      }
    }
  }

  lemma InsertKeepsTime(q: seq<Entry>, e: Entry, last: Timestamp)
    requires Sorted(e.side, q) && InTime(q, last) && last < e.timestamp
    ensures InTime(BookSpec.Insert(q, e), e.timestamp)
  {
    var k := InsertPlace(q, e);
    var r := InsertAt(q, k, e);
    assert forall i {:trigger r[i]} :: 0 <= i < |r| ==> r[i] == if i < k then q[i] else if i == k then e else q[i - 1];
    hide InsertAt, BookSpec.Insert;
  }

  lemma LaterIsInTime(q: seq<Entry>, last: Timestamp, later: Timestamp)
    requires InTime(q, last) && last <= later
    ensures InTime(q, later)
  {
  }

  lemma SettleKeepsTime(book: Book, o: IncomingOrder, room: bool, last: Timestamp)
    requires Inv(book) && BookInTime(book, last) && last < o.timestamp
    ensures BookInTime(Settle(book, o, room).book, o.timestamp)
  {
    hide Match, BookSpec.Insert, InTime, Inv;
    MatchKeepsTime(o, o.quantity, book.Queue(o.side.Opposite()), NO_EVENT, last);
    LaterIsInTime(MatchIn(book, o).queue, last, o.timestamp);
    LaterIsInTime(book.Queue(o.side), last, o.timestamp);
    QueueIsSorted(book, o.side);
    InsertKeepsTime(book.Queue(o.side), EntryOf(o, MatchIn(book, o).left), last);
  }

  lemma RemoveKeepsTime(q: seq<Entry>, k: nat, last: Timestamp)
    requires InTime(q, last) && k < |q|
    ensures InTime(RemoveAt(q, k), last)
  {
  }

  /** Taking an order out leaves the others in their order. */
  lemma CancelKeepsTime(m: Machine, book: Book, id: OrderID, last: Timestamp)
    requires BookInTime(book, last)
    ensures BookInTime(Cancel(m, book, id).book, last)
  {
    if id in book.ids && book.ids[id].Shelf? {
      var p := book.ids[id];
      var k := FindLast(book.Queue(p.side), id, p.price);
      if k < |book.Queue(p.side)| {
        RemoveKeepsTime(book.Queue(p.side), k, last);
      }
    }
    hide InTime, RemoveAt, FindLast;
  }

  lemma StepKeepsTime(m: Machine, book: Book, op: Op, last: Timestamp)
    requires Inv(book) && BookInTime(book, last) && (op.Submit? ==> last < op.order.timestamp)
    ensures BookInTime(StepOf(m, book, op).book, if op.Submit? then op.order.timestamp else last)
  {
    hide Settle, InTime, Inv, Match;
    match op
    case CancelId(id) =>
      CancelKeepsTime(m, book, id, last);
    case Submit(o) =>
      SettleKeepsTime(book, o, m.HasRoom(Swept(book, o)), last);
      MatchKeepsTime(o, o.quantity, book.Queue(o.side.Opposite()), NO_EVENT, last);
      LaterIsInTime(MatchIn(book, o).queue, last, o.timestamp);
      LaterIsInTime(book.bids, last, o.timestamp);
      LaterIsInTime(book.asks, last, o.timestamp);
  }

  /** The stamps of the submitted orders strictly increase from `last`. */
  predicate Stamped(ops: seq<Op>, last: Timestamp) {
    ops == [] || (if ops[0].Submit?
                  then last < ops[0].order.timestamp && Stamped(ops[1..], ops[0].order.timestamp)
                  else Stamped(ops[1..], last))
  }

  function LastStamp(ops: seq<Op>, last: Timestamp): Timestamp {
    if ops == [] then last else LastStamp(ops[1..], if ops[0].Submit? then ops[0].order.timestamp else last)
  }

  lemma {:induction false} RunKeepsTime(m: Machine, book: Book, ops: seq<Op>, last: Timestamp)
    requires Inv(book) && BookInTime(book, last) && Stamped(ops, last) && RunFits(m, book, ops)
    ensures BookInTime(RunOf(m, book, ops).book, LastStamp(ops, last))
    decreases |ops|
  {
    if ops != [] {
      hide BookInTime, StepOf, After, Inv, Fits;
      StepKeepsTime(m, book, ops[0], last);
      StepKeepsInv(m, book, ops[0]);
      RunKeepsTime(After(m, book, ops[0]), StepOf(m, book, ops[0]).book, ops[1..],
                   if ops[0].Submit? then ops[0].order.timestamp else last);
    }
  }

  // ---------- The gateway in front of the ring buffer ----------

  datatype Ingress = Ingress(queue: Spsc.State<IncomingOrder>, nextSequence: nat)

  /** `submit` stamps and enters `try_push`; every other step belongs to the threads of the queue. */
  datatype Move = SubmitOrder(order: IncomingOrder) | QueueStep(action: Spsc.Action<IncomingOrder>)

  datatype Moved = Moved(state: Ingress, output: Spsc.Output<IncomingOrder>)

  function Stamp(o: IncomingOrder, sequence: nat): IncomingOrder {
    o.(timestamp := sequence)
  }

  /** One atomic step. Only the gateway pushes, and only one order at a time. */
  function MoveOn(g: Ingress, m: Move): (r: Moved)
    requires g.queue.buffer != []
    ensures |r.state.queue.buffer| == |g.queue.buffer|
  {
    match m
    case SubmitOrder(o) =>
      if g.queue.producer.ProducerIdle? then
        var n := Spsc.Step(g.queue, Spsc.LoadOwnTail(Stamp(o, g.nextSequence)));
        Moved(Ingress(n.state, g.nextSequence + 1), n.output)
      else Moved(g, Spsc.Silent)
    case QueueStep(a) =>
      if a.LoadOwnTail? then Moved(g, Spsc.Silent)
      else
        var n := Spsc.Step(g.queue, a);
        Moved(g.(queue := n.state), n.output)
  }

  datatype Ran = Ran(state: Ingress, outputs: seq<Spsc.Output<IncomingOrder>>)

  function RunMoves(g: Ingress, moves: seq<Move>): (r: Ran)
    requires g.queue.buffer != []
    ensures |r.state.queue.buffer| == |g.queue.buffer|
    decreases |moves|
  {
    if moves == [] then Ran(g, [])
    else
      var n := MoveOn(g, moves[0]);
      var r := RunMoves(n.state, moves[1..]);
      Ran(r.state, [n.output] + r.outputs)
  }

  /** The stamp of the order inside `try_push`, if there is one. */
  function InFlight(g: Ingress): set<nat> {
    match g.queue.producer
    case ProducerIdle => {}
    case TailLoaded(_, o) => {o.timestamp}
    case RoomSeen(_, o) => {o.timestamp}
    case SlotWritten(_, o) => {o.timestamp}
  }

  ghost predicate Increasing(q: seq<IncomingOrder>) {
    forall i, j :: 0 <= i < j < |q| ==> q[i].timestamp < q[j].timestamp
  }

  ghost predicate HasStamp(q: seq<IncomingOrder>, k: nat) {
    exists i :: 0 <= i < |q| && q[i].timestamp == k
  }

  /**
   Every stamp handed out so far is accepted, refused or in flight, accepted
   stamps increase, and the one in flight is the latest.
   */
  ghost predicate AllStamps(pushed: seq<IncomingOrder>, refused: seq<IncomingOrder>, flight: set<nat>, next: nat) {
    && next >= 1
    && Increasing(pushed)
    && (forall i :: 0 <= i < |pushed| ==> 1 <= pushed[i].timestamp < next)
    && (forall k :: k in flight ==> 1 <= k == next - 1 && !HasStamp(pushed, k))
    && (forall k :: 1 <= k < next ==> HasStamp(pushed, k) || HasStamp(refused, k) || k in flight)
  }

  ghost predicate StampsOk(g: Ingress, refused: seq<IncomingOrder>) {
    Spsc.Safe(g.queue) && AllStamps(g.queue.pushed, refused, InFlight(g), g.nextSequence)
  }

  function RefusedOnce(o: Spsc.Output<IncomingOrder>): seq<IncomingOrder> {
    if o.Refused? then [o.refused] else []
  }

  function RefusedOf(outputs: seq<Spsc.Output<IncomingOrder>>): seq<IncomingOrder> {
    if outputs == [] then [] else RefusedOnce(outputs[0]) + RefusedOf(outputs[1..])
  }

  lemma HasStampSnoc(q: seq<IncomingOrder>, o: IncomingOrder)
    ensures forall k :: HasStamp(q + [o], k) <==> HasStamp(q, k) || o.timestamp == k
  {
    forall k: nat
      ensures HasStamp(q + [o], k) <==> HasStamp(q, k) || o.timestamp == k
    {
      if HasStamp(q, k) {
        var i :| 0 <= i < |q| && q[i].timestamp == k;
        assert (q + [o])[i].timestamp == k;
      }
      if o.timestamp == k {
        assert (q + [o])[|q|].timestamp == k;
      }
    }
  }

  lemma HandOut(pushed: seq<IncomingOrder>, refused: seq<IncomingOrder>, next: nat)
    requires AllStamps(pushed, refused, {}, next)
    ensures AllStamps(pushed, refused, {next}, next + 1)
  {
  }

  lemma Refuse(pushed: seq<IncomingOrder>, refused: seq<IncomingOrder>, o: IncomingOrder, next: nat)
    requires AllStamps(pushed, refused, {o.timestamp}, next)
    ensures AllStamps(pushed, refused + [o], {}, next)
  {
    HasStampSnoc(refused, o);
    hide HasStamp;
    assert o.timestamp in {o.timestamp};
  }

  lemma Accept(pushed: seq<IncomingOrder>, refused: seq<IncomingOrder>, o: IncomingOrder, next: nat)
    requires AllStamps(pushed, refused, {o.timestamp}, next)
    ensures AllStamps(pushed + [o], refused, {}, next)
  {
    HasStampSnoc(pushed, o);
    assert o.timestamp in {o.timestamp};
    forall i | 0 <= i < |pushed|
      ensures pushed[i].timestamp < o.timestamp
    {
      assert HasStamp(pushed, pushed[i].timestamp);
    }
    hide HasStamp;
  }

  lemma MoveKeepsStamps(g: Ingress, refused: seq<IncomingOrder>, m: Move)
    requires StampsOk(g, refused) && g.queue.buffer != []
    ensures var n := MoveOn(g, m);
            StampsOk(n.state, refused + RefusedOnce(n.output))
  {
    hide Spsc.Safe, AllStamps;
    var n := MoveOn(g, m);
    assert refused + RefusedOnce(n.output) == if n.output.Refused? then refused + [n.output.refused] else refused;
    match m
    case SubmitOrder(o) =>
      if g.queue.producer.ProducerIdle? {
        Spsc.StepKeepsSafe(g.queue, Spsc.LoadOwnTail(Stamp(o, g.nextSequence)));
        HandOut(g.queue.pushed, refused, g.nextSequence);
      }
    case QueueStep(a) =>
      Spsc.StepKeepsSafe(g.queue, a);
      if a.LoadHead? && g.queue.producer.TailLoaded? {
        Refuse(g.queue.pushed, refused, g.queue.producer.item, g.nextSequence);
      } else if a.StoreTail? && g.queue.producer.SlotWritten? {
        Accept(g.queue.pushed, refused, g.queue.producer.item, g.nextSequence);
      }
  }

  lemma {:induction false} RunKeepsStamps(g: Ingress, refused: seq<IncomingOrder>, moves: seq<Move>)
    requires StampsOk(g, refused) && g.queue.buffer != []
    ensures var r := RunMoves(g, moves);
            StampsOk(r.state, refused + RefusedOf(r.outputs))
    decreases |moves|
  {
    hide StampsOk, MoveOn;
    if moves == [] {
      assert refused + [] == refused;
    } else {
      var n := MoveOn(g, moves[0]);
      var outputs := RunMoves(n.state, moves[1..]).outputs;
      MoveKeepsStamps(g, refused, moves[0]);
      RunKeepsStamps(n.state, refused + RefusedOnce(n.output), moves[1..]);
      assert ([n.output] + outputs)[1..] == outputs;
      Spsc.Associates(refused, RefusedOnce(n.output), RefusedOf(outputs));
    }
  }

  lemma MoveHistory(g: Ingress, m: Move)
    requires g.queue.buffer != []
    ensures var n := MoveOn(g, m);
            && n.state.queue.pushed == g.queue.pushed + Spsc.AcceptedOnce(n.output)
            && n.state.queue.popped == g.queue.popped + Spsc.DeliveredOnce(n.output)
  {
    hide Spsc.Step;
    match m
    case SubmitOrder(o) => Spsc.StepHistory(g.queue, Spsc.LoadOwnTail(Stamp(o, g.nextSequence)));
    case QueueStep(a) => Spsc.StepHistory(g.queue, a);
  }

  lemma {:induction false} MovesHistory(g: Ingress, moves: seq<Move>)
    requires g.queue.buffer != []
    ensures var r := RunMoves(g, moves);
            && r.state.queue.pushed == g.queue.pushed + Spsc.AcceptedOf(r.outputs)
            && r.state.queue.popped == g.queue.popped + Spsc.DeliveredOf(r.outputs)
    decreases |moves|
  {
    if moves != [] {
      hide MoveOn, Spsc.AcceptedOf, Spsc.DeliveredOf, Spsc.AcceptedOnce, Spsc.DeliveredOnce;
      var n := MoveOn(g, moves[0]);
      var outputs := RunMoves(n.state, moves[1..]).outputs;
      MoveHistory(g, moves[0]);
      MovesHistory(n.state, moves[1..]);
      Spsc.FirstOutput(n.output, outputs);
      Spsc.Associates(g.queue.pushed, Spsc.AcceptedOnce(n.output), Spsc.AcceptedOf(outputs));
      Spsc.Associates(g.queue.popped, Spsc.DeliveredOnce(n.output), Spsc.DeliveredOf(outputs));
    }
  }

  function Start(buffer: seq<IncomingOrder>): Ingress {
    Ingress(Spsc.Init(buffer), 1)
  }

  lemma StartsOk(buffer: seq<IncomingOrder>)
    requires Spsc.IsCapacity(|buffer|)
    ensures StampsOk(Start(buffer), [])
  {
  }

  /**
   In every interleaving: the delivered orders are a prefix of the accepted ones,
   the stamps of both strictly increase, and a stamp that was handed out and is
   missing belongs to a refused push or to the push under way.
   */
  lemma GatewayIsOrdered(buffer: seq<IncomingOrder>, moves: seq<Move>)
    requires Spsc.IsCapacity(|buffer|)
    ensures var r := RunMoves(Start(buffer), moves);
            var accepted, delivered := Spsc.AcceptedOf(r.outputs), Spsc.DeliveredOf(r.outputs);
            && delivered <= accepted && Increasing(accepted) && Increasing(delivered)
            && (forall i :: 0 <= i < |delivered| ==> delivered[i].timestamp >= 1)
            && (forall k :: 1 <= k < r.state.nextSequence ==>
                  HasStamp(accepted, k) || HasStamp(RefusedOf(r.outputs), k) || k in InFlight(r.state))
  {
    StartsOk(buffer);
    RunKeepsStamps(Start(buffer), [], moves);
    MovesHistory(Start(buffer), moves);
    hide RunMoves, InFlight;
    var r := RunMoves(Start(buffer), moves);
    assert [] + RefusedOf(r.outputs) == RefusedOf(r.outputs);
    assert [] + Spsc.AcceptedOf(r.outputs) == Spsc.AcceptedOf(r.outputs);
    assert [] + Spsc.DeliveredOf(r.outputs) == Spsc.DeliveredOf(r.outputs);
    assert r.state.queue.popped <= r.state.queue.pushed;
  }

  // ---------- What the gateway passes on ----------

  /** The order that a move hands to the gateway; `submit` cannot be entered while a push is under way. */
  function HandedIn(g: Ingress, m: Move): seq<IncomingOrder> {
    if m.SubmitOrder? && g.queue.producer.ProducerIdle? then [m.order] else []
  }

  /** The orders submitted in a run, in the order of the calls. */
  function HandedInBy(g: Ingress, moves: seq<Move>): seq<IncomingOrder>
    requires g.queue.buffer != []
    decreases |moves|
  {
    if moves == [] then [] else HandedIn(g, moves[0]) + HandedInBy(MoveOn(g, moves[0]).state, moves[1..])
  }

  /** The stamp is the number of the call, and everything else is as it was submitted. */
  predicate IsSubmitted(o: IncomingOrder, submitted: seq<IncomingOrder>) {
    && 1 <= o.timestamp <= |submitted|
    && var s := submitted[o.timestamp - 1];
    && o.id == s.id && o.side == s.side && o.otype == s.otype && o.price == s.price && o.quantity == s.quantity
  }

  ghost predicate AllSubmitted(q: seq<IncomingOrder>, submitted: seq<IncomingOrder>) {
    forall i :: 0 <= i < |q| ==> IsSubmitted(q[i], submitted)
  }

  /** Of the accepted orders, the refused ones, and the one in flight. */
  ghost predicate PassedOn(g: Ingress, refused: seq<IncomingOrder>, submitted: seq<IncomingOrder>) {
    && g.nextSequence == |submitted| + 1
    && AllSubmitted(g.queue.pushed, submitted) && AllSubmitted(refused, submitted)
    && match g.queue.producer
       case ProducerIdle => true
       case TailLoaded(_, o) => IsSubmitted(o, submitted)
       case RoomSeen(_, o) => IsSubmitted(o, submitted)
       case SlotWritten(_, o) => IsSubmitted(o, submitted)
  }

  lemma MoveKeepsPassedOn(g: Ingress, refused: seq<IncomingOrder>, submitted: seq<IncomingOrder>, m: Move)
    requires PassedOn(g, refused, submitted) && g.queue.buffer != []
    ensures var n := MoveOn(g, m);
            PassedOn(n.state, refused + RefusedOnce(n.output), submitted + HandedIn(g, m))
  {
  }

  lemma {:induction false} RunKeepsPassedOn(g: Ingress, refused: seq<IncomingOrder>, submitted: seq<IncomingOrder>,
                                            moves: seq<Move>)
    requires PassedOn(g, refused, submitted) && g.queue.buffer != []
    ensures var r := RunMoves(g, moves);
            PassedOn(r.state, refused + RefusedOf(r.outputs), submitted + HandedInBy(g, moves))
    decreases |moves|
  {
    hide PassedOn, MoveOn;
    if moves == [] {
      assert refused + [] == refused && submitted + [] == submitted;
    } else {
      var n := MoveOn(g, moves[0]);
      var outputs := RunMoves(n.state, moves[1..]).outputs;
      MoveKeepsPassedOn(g, refused, submitted, moves[0]);
      RunKeepsPassedOn(n.state, refused + RefusedOnce(n.output), submitted + HandedIn(g, moves[0]), moves[1..]);
      assert ([n.output] + outputs)[1..] == outputs;
      Spsc.Associates(refused, RefusedOnce(n.output), RefusedOf(outputs));
      Spsc.Associates(submitted, HandedIn(g, moves[0]), HandedInBy(n.state, moves[1..]));
    }
  }

  /**
   In every interleaving: each accepted, delivered or refused order is one that was
   submitted, unchanged but for its stamp, which is the number of the call. So the
   delivered orders are submitted orders in the order of submission.
   */
  lemma DeliveredAsSubmitted(buffer: seq<IncomingOrder>, moves: seq<Move>)
    requires Spsc.IsCapacity(|buffer|)
    ensures var r := RunMoves(Start(buffer), moves);
            var submitted := HandedInBy(Start(buffer), moves);
            var delivered := Spsc.DeliveredOf(r.outputs);
            && r.state.nextSequence == |submitted| + 1
            && AllSubmitted(Spsc.AcceptedOf(r.outputs), submitted) && AllSubmitted(RefusedOf(r.outputs), submitted)
            && AllSubmitted(delivered, submitted) && Increasing(delivered)
  {
    GatewayIsOrdered(buffer, moves);
    RunKeepsPassedOn(Start(buffer), [], [], moves);
    MovesHistory(Start(buffer), moves);
    hide RunMoves, Increasing, IsSubmitted, HandedInBy;
    var r := RunMoves(Start(buffer), moves);
    assert [] + RefusedOf(r.outputs) == RefusedOf(r.outputs);
    assert [] + Spsc.AcceptedOf(r.outputs) == Spsc.AcceptedOf(r.outputs);
    assert [] + HandedInBy(Start(buffer), moves) == HandedInBy(Start(buffer), moves);
  }

  /** Increasing stamps, none of them handed out yet from `next` on. */
  ghost predicate StampsBelow(q: seq<IncomingOrder>, next: nat) {
    Increasing(q) && forall i :: 0 <= i < |q| ==> 1 <= q[i].timestamp < next
  }

  lemma NextStamp(q: seq<IncomingOrder>, o: IncomingOrder)
    requires StampsBelow(q, o.timestamp) && o.timestamp >= 1
    ensures StampsBelow(q, o.timestamp + 1) && StampsBelow(q + [o], o.timestamp + 1)
    ensures q + [] == q
  {
  }

  class OrderGateway {
    const queue: Spsc.SpscQueue<IncomingOrder>
    var nextSequence: nat

    /** Everything pushed so far carries an earlier stamp than the next one, in increasing order. */
    ghost predicate Valid()
      reads this, queue, queue.buffer
    {
      queue.Valid() && nextSequence >= 1 && StampsBelow(queue.Pushed, nextSequence)
    }

    constructor (queue: Spsc.SpscQueue<IncomingOrder>)
      requires queue.Valid() && queue.Pushed == []
      ensures Valid() && this.queue == queue && nextSequence == 1
    {
      this.queue := queue;
      nextSequence := 1;
    }

    /** The order is pushed as it is, with the next stamp; the stamp is used up even if the queue is full. */
    method Submit(order: IncomingOrder) returns (ok: bool)
      requires Valid()
      modifies this`nextSequence, queue`tail, queue`Pushed, queue.buffer
      ensures Valid() && nextSequence == old(nextSequence) + 1
      ensures ok <==> |old(queue.Contents())| < queue.buffer.Length
      ensures var stamped := IncomingOrder(order.id, order.side, order.otype, order.price, order.quantity,
                                           old(nextSequence));
              && queue.Contents() == old(queue.Contents()) + (if ok then [stamped] else [])
              && queue.Pushed == old(queue.Pushed) + (if ok then [stamped] else [])
    {
      var stamped := order.(timestamp := nextSequence);
      NextStamp(queue.Pushed, stamped);
      hide StampsBelow, Spsc.SpscQueue.Valid, Spsc.SpscQueue.Contents;
      nextSequence := nextSequence + 1;
      ok := queue.TryPush(stamped);
    }
  }

  // ---------- Through the engine ----------

  lemma {:induction false} IncreasingIsStamped(ops: seq<Op>, last: Timestamp)
    requires Increasing(SubmittedBy(ops))
    requires forall i :: 0 <= i < |SubmittedBy(ops)| ==> last < SubmittedBy(ops)[i].timestamp
    ensures Stamped(ops, last)
  {
    if ops != [] {
      var rest := SubmittedBy(ops[1..]);
      if ops[0].Submit? {
        assert SubmittedBy(ops)[0] == ops[0].order;
        assert forall i :: 0 <= i < |rest| ==> rest[i] == SubmittedBy(ops)[i + 1];
        IncreasingIsStamped(ops[1..], ops[0].order.timestamp);
      } else {
        assert rest == SubmittedBy(ops);
        IncreasingIsStamped(ops[1..], last);
      }
    }
  }

  /**
   End to end: whatever the interleaving of gateway and engine thread, if the
   engine processes what the queue delivers, with any cancels in between, then
   every price level holds its orders in the order of their stamps.
   */
  lemma LevelsKeepStampOrder(buffer: seq<IncomingOrder>, moves: seq<Move>, m: Machine, ops: seq<Op>)
    requires Spsc.IsCapacity(|buffer|)
    requires SubmittedBy(ops) == Spsc.DeliveredOf(RunMoves(Start(buffer), moves).outputs)
    requires RunFits(m, EMPTY_BOOK, ops)
    ensures var book := RunOf(m, EMPTY_BOOK, ops).book;
            forall side, i, j ::
              0 <= i < j < |book.Queue(side)| && book.Queue(side)[i].price == book.Queue(side)[j].price ==>
                book.Queue(side)[i].timestamp < book.Queue(side)[j].timestamp
  {
    GatewayIsOrdered(buffer, moves);
    hide RunMoves, RunFits, RunOf;
    IncreasingIsStamped(ops, 0);
    RunKeepsTime(m, EMPTY_BOOK, ops, 0);
  }

  lemma StemsFromSubmitted(e: Entry, delivered: seq<IncomingOrder>, submitted: seq<IncomingOrder>)
    requires StemsFrom(e, delivered) && AllSubmitted(delivered, submitted)
    ensures 1 <= e.timestamp <= |submitted|
    ensures IsRestOf(e, submitted[e.timestamp - 1].(timestamp := e.timestamp))
  {
    var j :| 0 <= j < |delivered| && IsRestOf(e, delivered[j]);
    assert IsSubmitted(delivered[j], submitted);
  }

  /**
   End to end, the orders of the book are as they were submitted: each carries the
   number of its submission, and its id, side, type, price and quantity.
   */
  lemma RestingAsSubmitted(buffer: seq<IncomingOrder>, moves: seq<Move>, m: Machine, ops: seq<Op>)
    requires Spsc.IsCapacity(|buffer|) && m.Lost() == []
    requires SubmittedBy(ops) == Spsc.DeliveredOf(RunMoves(Start(buffer), moves).outputs)
    ensures var r := RunOf(m, EMPTY_BOOK, ops);
            var submitted := HandedInBy(Start(buffer), moves);
            forall e :: e in r.book.bids + r.book.asks + r.machine.Lost() ==>
              1 <= e.timestamp <= |submitted| && IsRestOf(e, submitted[e.timestamp - 1].(timestamp := e.timestamp))
  {
    DeliveredAsSubmitted(buffer, moves);
    RunKeepsOrigins(m, EMPTY_BOOK, ops, []);
    assert [] + SubmittedBy(ops) == SubmittedBy(ops);
    var r := RunOf(m, EMPTY_BOOK, ops);
    var submitted := HandedInBy(Start(buffer), moves);
    hide RunMoves, RunOf, HandedInBy, Increasing, AllSubmitted, IsRestOf, StemsFrom;
    forall e | e in r.book.bids + r.book.asks + r.machine.Lost()
      ensures 1 <= e.timestamp <= |submitted| && IsRestOf(e, submitted[e.timestamp - 1].(timestamp := e.timestamp))
    {
      assert StemsFrom(e, SubmittedBy(ops));
      StemsFromSubmitted(e, SubmittedBy(ops), submitted);
    }
  }
}
