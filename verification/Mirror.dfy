/**
 Mirror symmetry: reflecting every price `p` to `pivot - p` and swapping the
 sides turns every run into the reflected run, so selling is buying seen in a
 mirror.
 */
module Mirror {
  import opened Types
  import opened BookSpec
  import opened Levels
  import MatchingLaws
  import opened Runs

  function MirrorOrder(pivot: Price, o: IncomingOrder): IncomingOrder {
    o.(side := o.side.Opposite(), price := pivot - o.price)
  }

  function MirrorEntry(pivot: Price, e: Entry): Entry {
    e.(side := e.side.Opposite(), price := pivot - e.price)
  }

  function MirrorQueue(pivot: Price, q: seq<Entry>): (r: seq<Entry>)
    ensures |r| == |q|
    ensures forall i :: 0 <= i < |q| ==> r[i] == MirrorEntry(pivot, q[i])
  {
    seq(|q|, i requires 0 <= i < |q| => MirrorEntry(pivot, q[i]))
  }

  function MirrorPlace(pivot: Price, p: Place): Place {
    if p.Shelf? then Shelf(p.side.Opposite(), pivot - p.price) else p
  }

  function MirrorIds(pivot: Price, ids: map<OrderID, Place>): map<OrderID, Place> {
    map id | id in ids :: MirrorPlace(pivot, ids[id])
  }

  function MirrorBook(pivot: Price, book: Book): Book {
    Book(MirrorQueue(pivot, book.asks), MirrorQueue(pivot, book.bids), MirrorIds(pivot, book.ids))
  }

  /** The engine with the images of its lost orders. */
  function MirrorMachine(pivot: Price, m: Machine): Machine {
    if m.Fast? then m.(lost := MirrorQueue(pivot, m.lost)) else m
  }

  /** The buyer becomes the seller. */
  function MirrorTrade(pivot: Price, t: Trade): Trade {
    Trade(t.sellOrderId, t.buyOrderId, pivot - t.price, t.quantity, t.timestamp)
  }

  function MirrorReport(pivot: Price, r: Report): Report {
    r.(side := r.side.Opposite(), price := pivot - r.price)
  }

  function MirrorEvent(pivot: Price, ev: MatchEvent): MatchEvent {
    MatchEvent(seq(|ev.trades|, i requires 0 <= i < |ev.trades| => MirrorTrade(pivot, ev.trades[i])),
               seq(|ev.reports|, i requires 0 <= i < |ev.reports| => MirrorReport(pivot, ev.reports[i])))
  }

  function MirrorOutcome(pivot: Price, m: Outcome): Outcome {
    Outcome(MirrorQueue(pivot, m.queue), m.left, MirrorEvent(pivot, m.event))
  }

  function MirrorStep(pivot: Price, s: Step): Step {
    Step(MirrorBook(pivot, s.book), MirrorEvent(pivot, s.event))
  }

  function MirrorOp(pivot: Price, op: Op): Op {
    if op.Submit? then Submit(MirrorOrder(pivot, op.order)) else op
  }

  function MirrorOps(pivot: Price, ops: seq<Op>): (r: seq<Op>)
    ensures |r| == |ops|
  {
    if ops == [] then [] else [MirrorOp(pivot, ops[0])] + MirrorOps(pivot, ops[1..])
  }

  function MirrorEvents(pivot: Price, events: seq<MatchEvent>): seq<MatchEvent> {
    if events == [] then [] else [MirrorEvent(pivot, events[0])] + MirrorEvents(pivot, events[1..])
  }

  function MirrorRun(pivot: Price, r: Run): Run {
    Run(MirrorMachine(pivot, r.machine), MirrorBook(pivot, r.book), MirrorEvents(pivot, r.events))
  }

  // ---------- Sequences in the mirror ----------

  lemma MirrorTail(pivot: Price, q: seq<Entry>)
    requires q != []
    ensures MirrorQueue(pivot, q)[1..] == MirrorQueue(pivot, q[1..])
  {
  }

  lemma MirrorConcat(pivot: Price, a: seq<Entry>, b: seq<Entry>)
    ensures MirrorQueue(pivot, a + b) == MirrorQueue(pivot, a) + MirrorQueue(pivot, b)
  {
  }

  lemma MirrorAddTrade(pivot: Price, ev: MatchEvent, t: Trade)
    ensures MirrorEvent(pivot, AddTrade(ev, t)) == AddTrade(MirrorEvent(pivot, ev), MirrorTrade(pivot, t))
  {
  }

  lemma MirrorAddReport(pivot: Price, ev: MatchEvent, r: Report)
    ensures MirrorEvent(pivot, AddReport(ev, r)) == AddReport(MirrorEvent(pivot, ev), MirrorReport(pivot, r))
  {
  }

  /** The mirror is its own inverse. */
  lemma MirrorTwice(pivot: Price, book: Book, ev: MatchEvent)
    ensures MirrorBook(pivot, MirrorBook(pivot, book)) == book
    ensures MirrorEvent(pivot, MirrorEvent(pivot, ev)) == ev
  {
    assert MirrorQueue(pivot, MirrorQueue(pivot, book.bids)) == book.bids;
    assert MirrorQueue(pivot, MirrorQueue(pivot, book.asks)) == book.asks;
    assert MirrorIds(pivot, MirrorIds(pivot, book.ids)) == book.ids;
  }

  lemma MirrorErased(pivot: Price, ids: map<OrderID, Place>, ev: MatchEvent)
    ensures MirrorIds(pivot, ids - ReportedIds(ev.reports))
            == MirrorIds(pivot, ids) - ReportedIds(MirrorEvent(pivot, ev).reports)
  {
    var reports := MirrorEvent(pivot, ev).reports;
    assert ReportedIds(reports) == ReportedIds(ev.reports) by {
      assert forall i :: 0 <= i < |reports| ==> reports[i].orderId == ev.reports[i].orderId;
      forall id | id in ReportedIds(ev.reports)
        ensures id in ReportedIds(reports)
      {
        var i :| 0 <= i < |ev.reports| && ev.reports[i].orderId == id;
        assert reports[i] in reports;
      }
    }
  }

  // ---------- Matching and resting in the mirror ----------

  lemma MirrorFill(pivot: Price, o: IncomingOrder, left: Quantity, q: seq<Entry>, ev: MatchEvent)
    requires q != []
    ensures Fill(MirrorOrder(pivot, o), left, MirrorQueue(pivot, q), MirrorEvent(pivot, ev))
            == MirrorOutcome(pivot, Fill(o, left, q, ev))
  {
    var fill := Min(left, q[0].remaining);
    var t := TradeWith(o, q[0], fill);
    MirrorAddTrade(pivot, ev, t);
    MirrorAddReport(pivot, AddTrade(ev, t), FilledReport(q[0]));
    MirrorTail(pivot, q);
    MirrorConcat(pivot, [Reduced(q[0], fill)], q[1..]);
    assert MirrorQueue(pivot, [Reduced(q[0], fill)]) == [Reduced(MirrorEntry(pivot, q[0]), fill)];
  }

  lemma {:induction false} MirrorMatch(pivot: Price, o: IncomingOrder, left: Quantity, q: seq<Entry>, ev: MatchEvent)
    ensures Match(MirrorOrder(pivot, o), left, MirrorQueue(pivot, q), MirrorEvent(pivot, ev))
            == MirrorOutcome(pivot, Match(o, left, q, ev))
    decreases |q|
  {
    if !Done(o, left, q) {
      hide Fill, MirrorEvent, MirrorQueue;
      MirrorFill(pivot, o, left, q, ev);
      var f := Fill(o, left, q, ev);
      if |f.queue| < |q| {
        MirrorMatch(pivot, o, f.left, f.queue, f.event);
      }
    }
  }

  lemma {:induction false} MirrorInsert(pivot: Price, q: seq<Entry>, e: Entry)
    ensures BookSpec.Insert(MirrorQueue(pivot, q), MirrorEntry(pivot, e)) == MirrorQueue(pivot, BookSpec.Insert(q, e))
  {
    if q == [] || Better(e.side, e.price, q[0].price) {
      MirrorConcat(pivot, [e], q);
    } else {
      MirrorInsert(pivot, q[1..], e);
      MirrorTail(pivot, q);
      MirrorConcat(pivot, [q[0]], BookSpec.Insert(q[1..], e));
    }
  }

  lemma MirrorMatchIn(pivot: Price, book: Book, o: IncomingOrder)
    ensures MatchIn(MirrorBook(pivot, book), MirrorOrder(pivot, o)) == MirrorOutcome(pivot, MatchIn(book, o))
    ensures Swept(MirrorBook(pivot, book), MirrorOrder(pivot, o)) == MirrorBook(pivot, Swept(book, o))
  {
    hide Match, ReportedIds;
    assert MirrorEvent(pivot, NO_EVENT) == NO_EVENT;
    MirrorMatch(pivot, o, o.quantity, book.Queue(o.side.Opposite()), NO_EVENT);
    MirrorErased(pivot, book.ids, MatchIn(book, o).event);
    hide MirrorIds;
  }

  lemma MirrorRest(pivot: Price, book: Book, o: IncomingOrder, left: Quantity)
    ensures Rest(MirrorBook(pivot, book), MirrorOrder(pivot, o), left) == MirrorBook(pivot, Rest(book, o, left))
  {
    hide BookSpec.Insert;
    MirrorInsert(pivot, book.Queue(o.side), EntryOf(o, left));
    assert MirrorEntry(pivot, EntryOf(o, left)) == EntryOf(MirrorOrder(pivot, o), left);
    assert MirrorIds(pivot, book.ids[o.id := Shelf(o.side, o.price)])
        == MirrorIds(pivot, book.ids)[o.id := MirrorPlace(pivot, Shelf(o.side, o.price))];
    hide MirrorIds;
  }

  lemma MirrorSettle(pivot: Price, book: Book, o: IncomingOrder, room: bool)
    ensures Settle(MirrorBook(pivot, book), MirrorOrder(pivot, o), room) == MirrorStep(pivot, Settle(book, o, room))
  {
    hide MatchIn, Swept, Rest, MirrorEvent, MirrorBook;
    var m := MatchIn(book, o);
    MirrorMatchIn(pivot, book, o);
    forall r
      ensures MirrorEvent(pivot, AddReport(m.event, r))
              == AddReport(MirrorEvent(pivot, m.event), MirrorReport(pivot, r))
    {
      MirrorAddReport(pivot, m.event, r);
    }
    MirrorRest(pivot, Swept(book, o), o, m.left);
  }

  lemma MirrorReject(pivot: Price, book: Book, o: IncomingOrder)
    ensures Reject(MirrorBook(pivot, book), MirrorOrder(pivot, o)) == MirrorStep(pivot, Reject(book, o))
  {
    MirrorAddReport(pivot, NO_EVENT, RejectReport(o));
    assert MirrorEvent(pivot, NO_EVENT) == NO_EVENT;
  }

  lemma MirrorSize(pivot: Price, book: Book)
    ensures MirrorBook(pivot, book).Size() == book.Size()
  {
  }

  lemma MirrorEventIsInjective(pivot: Price, ev: MatchEvent, ev': MatchEvent)
    ensures MirrorEvent(pivot, ev) == MirrorEvent(pivot, ev') <==> ev == ev'
  {
    MirrorTwice(pivot, EMPTY_BOOK, ev);
    MirrorTwice(pivot, EMPTY_BOOK, ev');
  }

  /** Settling a Limit order looks like refusing it exactly if it trades with nobody and cannot rest. */
  lemma SettlesLikeReject(book: Book, o: IncomingOrder, room: bool)
    requires o.quantity > 0 && o.otype.Limit?
    ensures Settle(book, o, room).event == Reject(book, o).event
            <==> Done(o, o.quantity, book.Queue(o.side.Opposite())) && !room
    ensures Done(o, o.quantity, book.Queue(o.side.Opposite())) && !room ==> Settle(book, o, room) == Reject(book, o)
  {
    var q := book.Queue(o.side.Opposite());
    var m := MatchIn(book, o);
    if Done(o, o.quantity, q) {
      NothingErased(book, o);
      var e := Settle(book, o, room).event.reports;
      assert e[0].status == if room then Resting else Cancelled;
    } else {
      MatchTrades(o, o.quantity, q);
      assert Settle(book, o, room).event.trades == m.event.trades;
    }
  }

  lemma MatchTrades(o: IncomingOrder, left: Quantity, q: seq<Entry>)
    requires !Done(o, left, q)
    ensures Match(o, left, q, NO_EVENT).event.trades != []
  {
    var f := Fill(o, left, q, NO_EVENT);
    if |f.queue| < |q| {
      MatchingLaws.MatchExtends(o, f.left, f.queue, f.event);
    }
  }

  // ---------- Whole orders in the mirror ----------

  /** A Limit order that nobody trades with and that the pool has no slot for: reported like a refused one. */
  predicate Unplaced(m: Machine, book: Book, o: IncomingOrder) {
    Done(o, o.quantity, book.Queue(o.side.Opposite())) && !m.HasRoom(book)
  }

  predicate SameVerdict(m: Machine, pivot: Price, o: IncomingOrder) {
    m.Accepts(o) <==> m.Accepts(MirrorOrder(pivot, o))
  }

  predicate SameShelf(m: Machine, pivot: Price, price: Price) {
    m.HasLevel(price) <==> m.HasLevel(pivot - price)
  }

  /** The image of an order meets the same verdict and finds the same room. */
  lemma MirrorRests(m: Machine, pivot: Price, book: Book, o: IncomingOrder)
    ensures var book', o' := MirrorBook(pivot, book), MirrorOrder(pivot, o);
            && MatchIn(book', o').left == MatchIn(book, o).left
            && Swept(book', o') == MirrorBook(pivot, Swept(book, o))
            && m.HasRoom(Swept(book', o')) == m.HasRoom(Swept(book, o))
            && (SameVerdict(m, pivot, o) ==> Rests(m, book', o') == Rests(m, book, o))
  {
    MirrorMatchIn(pivot, book, o);
    MirrorSize(pivot, Swept(book, o));
    hide MatchIn, Swept, MirrorBook;
  }

  /** Both accepted: the images coincide unless one of them rests and the other is misfiled. */
  lemma MirrorAccepted(m: Machine, pivot: Price, book: Book, o: IncomingOrder)
    requires m.Accepts(o) && m.Accepts(MirrorOrder(pivot, o))
    ensures Process(m, MirrorBook(pivot, book), MirrorOrder(pivot, o)) == MirrorStep(pivot, Process(m, book, o))
            <==> (Rests(m, book, o) ==> SameShelf(m, pivot, o.price))
  {
    var book', o' := MirrorBook(pivot, book), MirrorOrder(pivot, o);
    MirrorRests(m, pivot, book, o);
    MirrorSettle(pivot, book, o, m.HasRoom(Swept(book, o)));
    MirrorSize(pivot, Process(m, book, o).book);
    if Misfiles(m, book, o) {
      MisfiledIsMissing(m, book, o);
      MirrorSize(pivot, Process(Reference, book, o).book);
    }
    if Misfiles(m, book', o') {
      MisfiledIsMissing(m, book', o');
    }
    hide Settle, MatchIn, Swept, MirrorBook, MirrorEvent;
  }

  /** Only one of them accepted: their events coincide only if it comes to nothing. */
  lemma MirrorRefused(m: Machine, pivot: Price, book: Book, o: IncomingOrder)
    requires m.Accepts(o) != m.Accepts(MirrorOrder(pivot, o))
    ensures Process(m, MirrorBook(pivot, book), MirrorOrder(pivot, o)) == MirrorStep(pivot, Process(m, book, o))
            <==> Unplaced(m, book, o)
  {
    var room := m.HasRoom(Swept(book, o));
    MirrorRests(m, pivot, book, o);
    MirrorSettle(pivot, book, o, room);
    MirrorReject(pivot, book, o);
    SettlesLikeReject(book, o, room);
    MirrorEventIsInjective(pivot, Settle(book, o, room).event, Reject(book, o).event);
    if Done(o, o.quantity, book.Queue(o.side.Opposite())) {
      NothingErased(book, o);
    }
    hide Settle, Reject, MatchIn, MirrorBook, MirrorEvent;
  }

  /**
   Neither engine prefers a direction exactly as long as its price check and its
   ladder treat an order and its image alike, or the accepted one comes to nothing.
   */
  lemma MirrorProcess(m: Machine, pivot: Price, book: Book, o: IncomingOrder)
    ensures Process(m, MirrorBook(pivot, book), MirrorOrder(pivot, o)) == MirrorStep(pivot, Process(m, book, o))
            <==> (SameVerdict(m, pivot, o) && (Rests(m, book, o) ==> SameShelf(m, pivot, o.price)))
                 || Unplaced(m, book, o)
  {
    if m.Accepts(o) && m.Accepts(MirrorOrder(pivot, o)) {
      MirrorAccepted(m, pivot, book, o);
      if Unplaced(m, book, o) {
        NothingErased(book, o);
      }
    } else if m.Accepts(o) || m.Accepts(MirrorOrder(pivot, o)) {
      MirrorRefused(m, pivot, book, o);
    } else {
      MirrorReject(pivot, book, o);
    }
    hide Settle, Reject, MatchIn, Swept, MirrorBook, MirrorEvent;
  }

  /** The reference engine has no preferred direction at all. */
  lemma MirrorRefProcess(pivot: Price, book: Book, o: IncomingOrder)
    ensures Process(Reference, MirrorBook(pivot, book), MirrorOrder(pivot, o))
            == MirrorStep(pivot, Process(Reference, book, o))
  {
    MirrorProcess(Reference, pivot, book, o);
    hide Process, Rests, MirrorBook;
  }

  lemma MirrorFindLast(pivot: Price, q: seq<Entry>, id: OrderID, price: Price)
    ensures FindLast(MirrorQueue(pivot, q), id, pivot - price) == FindLast(q, id, price)
  {
    var r := MirrorQueue(pivot, q);
    assert forall i :: 0 <= i < |q| ==> (Matches(r[i], id, pivot - price) <==> Matches(q[i], id, price));
  }

  lemma MirrorRemove(pivot: Price, q: seq<Entry>, k: nat)
    requires k < |q|
    ensures MirrorQueue(pivot, RemoveAt(q, k)) == RemoveAt(MirrorQueue(pivot, q), k)
    ensures MirrorEvent(pivot, AddReport(NO_EVENT, CancelReport(q[k])))
            == AddReport(NO_EVENT, CancelReport(MirrorQueue(pivot, q)[k]))
  {
    MirrorAddReport(pivot, NO_EVENT, CancelReport(q[k]));
    assert MirrorEvent(pivot, NO_EVENT) == NO_EVENT;
  }

  lemma MirrorIsLost(m: Machine, pivot: Price, book: Book, id: OrderID)
    requires id in book.ids && book.ids[id].Shelf? ==> SameShelf(m, pivot, book.ids[id].price)
    ensures IsLost(MirrorMachine(pivot, m), MirrorBook(pivot, book), id) <==> IsLost(m, book, id)
    ensures IsLost(m, book, id) ==>
              LostPlace(MirrorMachine(pivot, m), MirrorBook(pivot, book), id) == LostPlace(m, book, id)
  {
    if id in book.ids && book.ids[id].Shelf? {
      MirrorFindLast(pivot, m.Lost(), id, book.ids[id].price);
    }
    hide FindLast, MirrorQueue;
  }

  lemma MirrorTakeOut(pivot: Price, book: Book, id: OrderID, side: Side, k: nat)
    requires k < |book.Queue(side)|
    ensures TakeOut(MirrorBook(pivot, book), id, side.Opposite(), k) == MirrorStep(pivot, TakeOut(book, id, side, k))
  {
    MirrorRemove(pivot, book.Queue(side), k);
    assert MirrorIds(pivot, book.ids - {id}) == MirrorIds(pivot, book.ids) - {id};
    hide MirrorIds, RemoveAt, AddReport, CancelReport, MirrorEvent;
  }

  lemma MirrorFreeLost(pivot: Price, book: Book, id: OrderID, e: Entry)
    ensures FreeLost(MirrorBook(pivot, book), id, MirrorEntry(pivot, e)) == MirrorStep(pivot, FreeLost(book, id, e))
  {
    MirrorAddReport(pivot, NO_EVENT, CancelReport(e));
    assert MirrorEvent(pivot, NO_EVENT) == NO_EVENT;
    assert MirrorIds(pivot, book.ids[id := Freed]) == MirrorIds(pivot, book.ids)[id := Freed];
  }

  lemma MirrorCancelLost(m: Machine, pivot: Price, book: Book, id: OrderID)
    requires IsLost(m, book, id) && SameShelf(m, pivot, book.ids[id].price)
    ensures Cancel(MirrorMachine(pivot, m), MirrorBook(pivot, book), id) == MirrorStep(pivot, Cancel(m, book, id))
    ensures Released(MirrorMachine(pivot, m), MirrorBook(pivot, book), id)
            == MirrorMachine(pivot, Released(m, book, id))
  {
    MirrorIsLost(m, pivot, book, id);
    hide IsLost, LostPlace, FreeLost, RemoveAt, MirrorStep;
    var k := LostPlace(m, book, id);
    MirrorRemove(pivot, m.lost, k);
    MirrorFreeLost(pivot, book, id, m.lost[k]);
  }

  lemma MirrorTakeLast(pivot: Price, book: Book, id: OrderID, side: Side, price: Price)
    ensures TakeLast(MirrorBook(pivot, book), id, side.Opposite(), pivot - price)
            == MirrorStep(pivot, TakeLast(book, id, side, price))
  {
    MirrorFindLast(pivot, book.Queue(side), id, price);
    MirrorNothing(pivot);
    var k := FindLast(book.Queue(side), id, price);
    hide FindLast, TakeOut, MirrorEvent, MirrorQueue, MirrorIds;
    if k < |book.Queue(side)| {
      MirrorTakeOut(pivot, book, id, side, k);
    }
  }

  lemma MirrorCancelResting(m: Machine, pivot: Price, book: Book, id: OrderID)
    requires id in book.ids && book.ids[id].Shelf? && !IsLost(m, book, id) && SameShelf(m, pivot, book.ids[id].price)
    ensures Cancel(MirrorMachine(pivot, m), MirrorBook(pivot, book), id) == MirrorStep(pivot, Cancel(m, book, id))
  {
    var side, price := book.ids[id].side, book.ids[id].price;
    MirrorIsLost(m, pivot, book, id);
    assert MirrorBook(pivot, book).ids[id] == Shelf(side.Opposite(), pivot - price);
    CancelIsTakeLast(m, book, id, side, price);
    CancelIsTakeLast(MirrorMachine(pivot, m), MirrorBook(pivot, book), id, side.Opposite(), pivot - price);
    hide *;
    MirrorTakeLast(pivot, book, id, side, price);
  }

  lemma CancelIsTakeLast(m: Machine, book: Book, id: OrderID, side: Side, price: Price)
    requires id in book.ids && book.ids[id] == Shelf(side, price) && !IsLost(m, book, id)
    ensures Cancel(m, book, id) == TakeLast(book, id, side, price)
  {
  }

  lemma MirrorNothing(pivot: Price)
    ensures MirrorEvent(pivot, NO_EVENT) == NO_EVENT
  {
  }

  /** Cancelling commutes with a reflection that maps the price of the order to one with a level if it has one. */
  lemma MirrorCancel(m: Machine, pivot: Price, book: Book, id: OrderID)
    requires id in book.ids && book.ids[id].Shelf? ==> SameShelf(m, pivot, book.ids[id].price)
    ensures Cancel(MirrorMachine(pivot, m), MirrorBook(pivot, book), id) == MirrorStep(pivot, Cancel(m, book, id))
    ensures Released(MirrorMachine(pivot, m), MirrorBook(pivot, book), id)
            == MirrorMachine(pivot, Released(m, book, id))
  {
    if IsLost(m, book, id) {
      MirrorCancelLost(m, pivot, book, id);
    } else {
      MirrorIsLost(m, pivot, book, id);
      if id in book.ids && book.ids[id].Shelf? {
        MirrorCancelResting(m, pivot, book, id);
      }
      MirrorNothing(pivot);
    }
    hide IsLost, LostPlace, MirrorEvent;
  }

  // ---------- Runs in the mirror ----------

  /** The engine treats the operation and its image alike. */
  predicate Reflectable(m: Machine, pivot: Price, op: Op) {
    op.Submit? ==>
      SameVerdict(m, pivot, op.order) && (op.order.otype.Limit? ==> SameShelf(m, pivot, op.order.price))
  }

  /** Limit prices strictly between 0 and the number of levels, with that number as the pivot. */
  lemma InRangeIsReflectable(m: Machine, pivot: Price, op: Op)
    requires m.Fast? ==> pivot == m.levels
    requires m.Fast? && op.Submit? && op.order.otype.Limit? ==> 0 < op.order.price < pivot
    ensures Reflectable(m, pivot, op)
  {
  }

  /** The prices of all mapped orders have a level exactly if their images do. */
  predicate SameShelves(m: Machine, pivot: Price, book: Book) {
    forall id :: id in book.ids && book.ids[id].Shelf? ==> SameShelf(m, pivot, book.ids[id].price)
  }

  /** Every run, reflected, is the run of the reflected operations. */
  lemma {:induction false} MirrorRunOf(m: Machine, pivot: Price, book: Book, ops: seq<Op>)
    requires SameShelves(m, pivot, book)
    requires forall i :: 0 <= i < |ops| ==> Reflectable(m, pivot, ops[i])
    ensures RunOf(MirrorMachine(pivot, m), MirrorBook(pivot, book), MirrorOps(pivot, ops))
            == MirrorRun(pivot, RunOf(m, book, ops))
    decreases |ops|
  {
    if ops != [] {
      hide StepOf, After, MirrorBook, MirrorMachine, MirrorEvent, MirrorOp, SameShelves;
      var s, m' := StepOf(m, book, ops[0]), After(m, book, ops[0]);
      assert Reflectable(m, pivot, ops[0]);
      MirrorStepOf(m, pivot, book, ops[0]);
      SameLimits(m, book, ops[0], pivot, ops[1..]);
      StepKeepsShelves(m, pivot, book, ops[0]);
      MirrorRunOf(m', pivot, s.book, ops[1..]);
      MirrorRunStep(pivot, s.event, RunOf(m', s.book, ops[1..]).events);
      var image := MirrorOps(pivot, ops);
      assert image[0] == MirrorOp(pivot, ops[0]) && image[1..] == MirrorOps(pivot, ops[1..]);
    }
  }

  lemma StepKeepsShelves(m: Machine, pivot: Price, book: Book, op: Op)
    requires SameShelves(m, pivot, book) && Reflectable(m, pivot, op)
    ensures SameShelves(After(m, book, op), pivot, StepOf(m, book, op).book)
  {
    hide MatchIn, FindLast;
  }

  /** Losing an order changes neither prices nor verdicts. */
  lemma SameLimits(m: Machine, book: Book, op: Op, pivot: Price, ops: seq<Op>)
    ensures forall i :: 0 <= i < |ops| ==>
              (Reflectable(After(m, book, op), pivot, ops[i]) <==> Reflectable(m, pivot, ops[i]))
  {
  }

  lemma MirrorRunStep(pivot: Price, ev: MatchEvent, events: seq<MatchEvent>)
    ensures MirrorEvents(pivot, [ev] + events) == [MirrorEvent(pivot, ev)] + MirrorEvents(pivot, events)
  {
    assert ([ev] + events)[1..] == events;
  }

  /** What an engine does with an order does not depend on which orders it has lost. */
  lemma MirrorMachineProcess(m: Machine, pivot: Price, book: Book, o: IncomingOrder)
    ensures Process(MirrorMachine(pivot, m), book, o) == Process(m, book, o)
    ensures Misfiles(MirrorMachine(pivot, m), book, o) <==> Misfiles(m, book, o)
  {
    hide Settle, MatchIn, Swept;
  }

  lemma MirrorNext(m: Machine, pivot: Price, book: Book, o: IncomingOrder)
    requires Reflectable(m, pivot, Submit(o))
    ensures Next(MirrorMachine(pivot, m), MirrorBook(pivot, book), MirrorOrder(pivot, o))
            == MirrorMachine(pivot, Next(m, book, o))
  {
    var book', o' := MirrorBook(pivot, book), MirrorOrder(pivot, o);
    MirrorMachineProcess(m, pivot, book', o');
    MirrorRests(m, pivot, book, o);
    assert Rests(m, book, o) ==> SameShelf(m, pivot, o.price);
    hide MirrorBook, MatchIn, Swept, Rests;
    if Misfiles(m, book, o) {
      var e := StrayOf(o, MatchIn(book, o).left);
      MirrorConcat(pivot, m.lost, [e]);
      assert MirrorQueue(pivot, [e]) == [MirrorEntry(pivot, e)];
      assert MirrorEntry(pivot, e) == StrayOf(o', MatchIn(book', o').left);
    }
  }

  lemma MirrorStepOf(m: Machine, pivot: Price, book: Book, op: Op)
    requires SameShelves(m, pivot, book) && Reflectable(m, pivot, op)
    ensures StepOf(MirrorMachine(pivot, m), MirrorBook(pivot, book), MirrorOp(pivot, op))
            == MirrorStep(pivot, StepOf(m, book, op))
    ensures After(MirrorMachine(pivot, m), MirrorBook(pivot, book), MirrorOp(pivot, op))
            == MirrorMachine(pivot, After(m, book, op))
  {
    match op
    case Submit(o) =>
      MirrorMachineProcess(m, pivot, MirrorBook(pivot, book), MirrorOrder(pivot, o));
      MirrorProcess(m, pivot, book, o);
      MirrorNext(m, pivot, book, o);
      hide Process, Next, MirrorBook, MirrorMachine, MirrorStep;
      assert Rests(m, book, o) ==> o.otype.Limit?;
    case CancelId(id) =>
      MirrorCancel(m, pivot, book, id);
      hide Cancel, Released, MirrorBook, MirrorMachine, MirrorStep;
  }

  // ---------- Ladders in the mirror ----------

  /** The levels, mirrored and in reverse. */
  function Reversed(pivot: Price, v: seq<seq<Entry>>): (r: seq<seq<Entry>>)
    ensures |r| == |v|
    ensures forall i :: 0 <= i < |v| ==> r[i] == MirrorQueue(pivot, v[|v| - 1 - i])
  {
    if v == [] then [] else Reversed(pivot, v[1..]) + [MirrorQueue(pivot, v[0])]
  }

  /** The ladder of `pivot` levels whose level `i` is the image of level `pivot - i`; level 0 is never used. */
  function ReflectLevels(pivot: Price, v: seq<seq<Entry>>): seq<seq<Entry>>
    requires |v| == pivot > 0
  {
    [[]] + Reversed(pivot, v[1..])
  }

  lemma {:induction false} AscendingSnoc(v: seq<seq<Entry>>, s: seq<Entry>)
    ensures Ascending(v + [s]) == Ascending(v) + s
  {
    if v == [] {
      assert [] + [s] == [s];
    } else {
      AscendingSnoc(v[1..], s);
      assert (v + [s])[1..] == v[1..] + [s];
    }
  }

  lemma {:induction false} DescendingSnoc(v: seq<seq<Entry>>, s: seq<Entry>)
    ensures Descending(v + [s]) == s + Descending(v)
  {
    if v == [] {
      assert [] + [s] == [s];
    } else {
      DescendingSnoc(v[1..], s);
      assert (v + [s])[1..] == v[1..] + [s];
    }
  }

  lemma {:induction false} ReversedFlattens(pivot: Price, v: seq<seq<Entry>>)
    ensures Ascending(Reversed(pivot, v)) == MirrorQueue(pivot, Descending(v))
    ensures Descending(Reversed(pivot, v)) == MirrorQueue(pivot, Ascending(v))
  {
    if v != [] {
      ReversedFlattens(pivot, v[1..]);
      AscendingSnoc(Reversed(pivot, v[1..]), MirrorQueue(pivot, v[0]));
      DescendingSnoc(Reversed(pivot, v[1..]), MirrorQueue(pivot, v[0]));
      MirrorConcat(pivot, Descending(v[1..]), v[0]);
      MirrorConcat(pivot, v[0], Ascending(v[1..]));
    }
  }

  /** A reflected ladder stands for the reflected queue. */
  lemma ReflectedQueue(side: Side, pivot: Price, v: seq<seq<Entry>>)
    requires |v| == pivot > 0 && v[0] == []
    ensures QueueOf(side.Opposite(), ReflectLevels(pivot, v)) == MirrorQueue(pivot, QueueOf(side, v))
  {
    hide Reversed, MirrorQueue;
    ReversedFlattens(pivot, v[1..]);
    EmptyFirst(v);
    EmptyFirst(ReflectLevels(pivot, v));
    assert ReflectLevels(pivot, v)[1..] == Reversed(pivot, v[1..]);
  }

  lemma EmptyFirst(v: seq<seq<Entry>>)
    requires v != [] && v[0] == []
    ensures Ascending(v) == Ascending(v[1..]) && Descending(v) == Descending(v[1..])
  {
  }

  lemma ReflectedLevel(pivot: Price, v: seq<seq<Entry>>, i: int)
    requires |v| == pivot > 0 && v[0] == [] && 0 <= i < pivot
    ensures |ReflectLevels(pivot, v)| == pivot
    ensures ReflectLevels(pivot, v)[i] == if i == 0 then [] else MirrorQueue(pivot, v[pivot - i])
  {
  }

  /** Its best level is the image of the best level: the highest bit becomes the lowest one. */
  lemma ReflectedBest(side: Side, pivot: Price, v: seq<seq<Entry>>, best: int)
    requires |v| == pivot > 0 && v[0] == [] && 0 < best < pivot
    ensures IsBest(side.Opposite(), ReflectLevels(pivot, v), pivot - best) <==> IsBest(side, v, best)
  {
    hide ReflectLevels, MirrorQueue;
    var r := ReflectLevels(pivot, v);
    ReflectedLevel(pivot, v, 0);
    ReflectedLevel(pivot, v, pivot - best);
    if IsBest(side, v, best) {
      forall i | 0 <= i < pivot && Better(side.Opposite(), i, pivot - best)
        ensures r[i] == []
      {
        ReflectedLevel(pivot, v, i);
      }
    }
    if IsBest(side.Opposite(), r, pivot - best) {
      forall i | 0 < i < pivot && Better(side, i, best)
        ensures v[i] == []
      {
        ReflectedLevel(pivot, v, pivot - i);
        assert r[pivot - i] == [];
      }
    }
  }
}
