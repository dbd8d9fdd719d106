/**
 Where every submitted quantity goes: into trades, into what still rests, or
 into a reported remainder.
 */
module Conservation {
  import opened Types
  import opened BookSpec
  import opened BookLaws
  import opened MatchingLaws
  import opened Runs

  /** The quantity that trades give to an id; a trade of an id with itself counts on both sides. */
  function Traded(trades: seq<Trade>, id: OrderID): Quantity {
    if trades == [] then 0
    else Traded(trades[..|trades| - 1], id) + TradedOnce(trades[|trades| - 1], id)
  }

  function TradedOnce(t: Trade, id: OrderID): Quantity {
    (if t.buyOrderId == id then t.quantity else 0) + (if t.sellOrderId == id then t.quantity else 0)
  }

  /** What the orders of a queue with this id have left. */
  function Remaining(q: seq<Entry>, id: OrderID): Quantity {
    if q == [] then 0
    else (if q[0].id == id then q[0].remaining else 0) + Remaining(q[1..], id)
  }

  function RestingOf(book: Book, id: OrderID): Quantity {
    Remaining(book.bids, id) + Remaining(book.asks, id)
  }

  /** The remainders reported as cancelled for an id. */
  function Refunded(reports: seq<Report>, id: OrderID): Quantity {
    if reports == [] then 0
    else Refunded(reports[..|reports| - 1], id) + RefundedOnce(reports[|reports| - 1], id)
  }

  function RefundedOnce(r: Report, id: OrderID): Quantity {
    if r.orderId == id && r.status == Cancelled then r.remainingQuantity else 0
  }

  lemma TradedSnoc(trades: seq<Trade>, t: Trade, id: OrderID)
    ensures Traded(trades + [t], id) == Traded(trades, id) + TradedOnce(t, id)
  {
    assert (trades + [t])[..|trades|] == trades;
  }

  lemma RefundedSnoc(reports: seq<Report>, r: Report, id: OrderID)
    ensures Refunded(reports + [r], id) == Refunded(reports, id) + RefundedOnce(r, id)
  {
    assert (reports + [r])[..|reports|] == reports;
  }

  lemma {:induction false} TradedOfConcat(a: seq<Trade>, b: seq<Trade>, id: OrderID)
    ensures Traded(a + b, id) == Traded(a, id) + Traded(b, id)
  {
    if b == [] {
      assert a + b == a;
    } else {
      assert a + b == (a + b[..|b| - 1]) + [b[|b| - 1]];
      TradedSnoc(a + b[..|b| - 1], b[|b| - 1], id);
      TradedOfConcat(a, b[..|b| - 1], id);
    }
  }

  lemma {:induction false} RefundedOfConcat(a: seq<Report>, b: seq<Report>, id: OrderID)
    ensures Refunded(a + b, id) == Refunded(a, id) + Refunded(b, id)
  {
    if b == [] {
      assert a + b == a;
    } else {
      assert a + b == (a + b[..|b| - 1]) + [b[|b| - 1]];
      RefundedSnoc(a + b[..|b| - 1], b[|b| - 1], id);
      RefundedOfConcat(a, b[..|b| - 1], id);
    }
  }

  lemma {:induction false} RemainingOfConcat(a: seq<Entry>, b: seq<Entry>, id: OrderID)
    ensures Remaining(a + b, id) == Remaining(a, id) + Remaining(b, id)
  {
    if a == [] {
      assert a + b == b;
    } else {
      assert (a + b)[1..] == a[1..] + b;
      RemainingOfConcat(a[1..], b, id);
    }
  }

  /** The part of the incoming quantity that belongs to an id. */
  function Own(o: IncomingOrder, quantity: Quantity, id: OrderID): Quantity {
    if o.id == id then quantity else 0
  }

  /** One fill moves the same quantity out of the queue and out of the incoming order, into a trade. */
  lemma FillConserves(o: IncomingOrder, left: Quantity, q: seq<Entry>, ev: MatchEvent, id: OrderID)
    requires q != []
    ensures var f := Fill(o, left, q, ev);
            && Traded(f.event.trades, id) + Remaining(f.queue, id) + Own(o, f.left, id)
               == Traded(ev.trades, id) + Remaining(q, id) + Own(o, left, id)
            && Refunded(f.event.reports, id) == Refunded(ev.reports, id)
  {
    var fill := Min(left, q[0].remaining);
    TradedSnoc(ev.trades, TradeWith(o, q[0], fill), id);
    RefundedSnoc(ev.reports, FilledReport(q[0]), id);
    assert ([Reduced(q[0], fill)] + q[1..])[1..] == q[1..];
  }

  lemma {:induction false} MatchConserves(o: IncomingOrder, left: Quantity, q: seq<Entry>, ev: MatchEvent, id: OrderID)
    ensures var m := Match(o, left, q, ev);
            && Traded(m.event.trades, id) + Remaining(m.queue, id) + Own(o, m.left, id)
               == Traded(ev.trades, id) + Remaining(q, id) + Own(o, left, id)
            && Refunded(m.event.reports, id) == Refunded(ev.reports, id)
    decreases |q|
  {
    if !Done(o, left, q) {
      var f := Fill(o, left, q, ev);
      FillConserves(o, left, q, ev, id);
      if |f.queue| < |q| {
        MatchConserves(o, f.left, f.queue, f.event, id);
      }
    }
  }

  lemma {:induction false} InsertConserves(q: seq<Entry>, e: Entry, id: OrderID)
    ensures Remaining(BookSpec.Insert(q, e), id) == Remaining(q, id) + (if e.id == id then e.remaining else 0)
  {
    if !(q == [] || Better(e.side, e.price, q[0].price)) {
      InsertConserves(q[1..], e, id);
      assert BookSpec.Insert(q, e)[1..] == BookSpec.Insert(q[1..], e);
    } else {
      assert BookSpec.Insert(q, e)[1..] == q;
    }
  }

  lemma RemoveConserves(q: seq<Entry>, k: nat, id: OrderID)
    requires k < |q|
    ensures Remaining(RemoveAt(q, k), id) == Remaining(q, id) - (if q[k].id == id then q[k].remaining else 0)
  {
    assert RemoveAt(q, k) == q[..k] + q[k + 1..];
    assert q == q[..k] + ([q[k]] + q[k + 1..]);
    RemainingOfConcat(q[..k], q[k + 1..], id);
    RemainingOfConcat(q[..k], [q[k]] + q[k + 1..], id);
    assert ([q[k]] + q[k + 1..])[1..] == q[k + 1..];
  }

  function SubmittedOnce(op: Op, id: OrderID): Quantity {
    if op.Submit? then Own(op.order, op.order.quantity, id) else 0
  }

  lemma NothingTraded(id: OrderID)
    ensures Traded([], id) == 0 && Refunded([], id) == 0
  {
  }

  lemma SettleConserves(book: Book, o: IncomingOrder, room: bool, id: OrderID)
    ensures var s := Settle(book, o, room);
            Own(o, o.quantity, id) + RestingOf(book, id)
            == Traded(s.event.trades, id) + RestingOf(s.book, id) + Refunded(s.event.reports, id)
  {
    hide Match, BookSpec.Insert, Traded, Refunded, Remaining;
    NothingTraded(id);
    var m := MatchIn(book, o);
    MatchConserves(o, o.quantity, book.Queue(o.side.Opposite()), NO_EVENT, id);
    RefundedSnoc(m.event.reports, OwnReport(o, Filled, 0), id);
    RefundedSnoc(m.event.reports, OwnReport(o, Resting, m.left), id);
    RefundedSnoc(m.event.reports, OwnReport(o, Cancelled, m.left), id);
    InsertConserves(book.Queue(o.side), EntryOf(o, m.left), id);
  }

  /** What the resting and the lost orders with this id have left. */
  function HeldOf(m: Machine, book: Book, id: OrderID): Quantity {
    RestingOf(book, id) + Remaining(m.Lost(), id)
  }

  /**
   Every step of either engine accounts for the quantity of every id, whatever the
   book and the order: submitted plus held before is traded plus refunded plus
   held after.
   */
  lemma StepAccounts(m: Machine, book: Book, op: Op, id: OrderID)
    requires Fits(book, op)
    ensures var s := StepOf(m, book, op);
            SubmittedOnce(op, id) + HeldOf(m, book, id)
            == Traded(s.event.trades, id) + Refunded(s.event.reports, id) + HeldOf(After(m, book, op), s.book, id)
  {
    hide Settle, Traded, Refunded, Remaining;
    NothingTraded(id);
    match op
    case Submit(o) =>
      SettleConserves(book, o, m.HasRoom(Swept(book, o)), id);
      RefundedSnoc([], RejectReport(o), id);
      if Misfiles(m, book, o) {
        MisfiledIsHeld(m, book, o, id);
      }
    case CancelId(x) =>
      CancelAccounts(m, book, x, id);
  }

  lemma CancelAccounts(m: Machine, book: Book, x: OrderID, id: OrderID)
    ensures var s := Cancel(m, book, x);
            && s.event.trades == []
            && HeldOf(m, book, id) == Refunded(s.event.reports, id) + HeldOf(Released(m, book, x), s.book, id)
  {
    hide Refunded, Remaining;
    NothingTraded(id);
    if IsLost(m, book, x) {
      var k := LostPlace(m, book, x);
      RemoveConserves(m.lost, k, id);
      RefundedSnoc([], CancelReport(m.lost[k]), id);
    } else if x in book.ids && book.ids[x].Shelf? {
      var p := book.ids[x];
      var q := book.Queue(p.side);
      var k := FindLast(q, x, p.price);
      if k < |q| {
        RemoveConserves(q, k, id);
        RefundedSnoc([], CancelReport(q[k]), id);
      }
    }
  }

  /** A misfiled order is held too, though in no queue. */
  lemma MisfiledIsHeld(m: Machine, book: Book, o: IncomingOrder, id: OrderID)
    requires Misfiles(m, book, o)
    ensures var left := MatchIn(book, o).left;
            && Settle(book, o, true).book == Rest(Swept(book, o), o, left)
            && RestingOf(Rest(Swept(book, o), o, left), id) == RestingOf(Swept(book, o), id) + Own(o, left, id)
            && Remaining(Next(m, book, o).Lost(), id) == Remaining(m.Lost(), id) + Own(o, left, id)
  {
    hide Match, BookSpec.Insert, Remaining;
    var e := StrayOf(o, MatchIn(book, o).left);
    InsertConserves(Swept(book, o).Queue(o.side), EntryOf(o, MatchIn(book, o).left), id);
    RemainingOfConcat(m.lost, [e], id);
    OneRemaining(e, id);
  }

  lemma OneRemaining(e: Entry, id: OrderID)
    ensures Remaining([e], id) == if e.id == id then e.remaining else 0
  {
    assert [e][1..] == [];
  }

  /** The step loses an order with this id, or gives a lost one back. */
  predicate Displaces(m: Machine, book: Book, op: Op, id: OrderID) {
    match op
    case Submit(o) => Misfiles(m, book, o) && o.id == id
    case CancelId(x) => IsLost(m, book, x) && x == id
  }

  /**
   The balance of an id over submissions, trades, refunds and the queues alone
   holds in one step exactly if the step neither loses an order with that id nor
   reports the cancel of a lost one.
   */
  lemma StepConserves(m: Machine, book: Book, op: Op, id: OrderID)
    requires Fits(book, op) && Positive(m.Lost())
    ensures var s := StepOf(m, book, op);
            SubmittedOnce(op, id) + RestingOf(book, id)
            == Traded(s.event.trades, id) + Refunded(s.event.reports, id) + RestingOf(s.book, id)
            <==> !Displaces(m, book, op, id)
  {
    StepAccounts(m, book, op, id);
    LostChanges(m, book, op, id);
    hide StepOf, After, Traded, Refunded, Remaining, RestingOf, Displaces;
  }

  lemma LostChanges(m: Machine, book: Book, op: Op, id: OrderID)
    requires Positive(m.Lost())
    ensures Remaining(After(m, book, op).Lost(), id) == Remaining(m.Lost(), id) <==> !Displaces(m, book, op, id)
  {
    hide Remaining, MatchIn;
    match op
    case Submit(o) =>
      if Misfiles(m, book, o) {
        MisfiledIsHeld(m, book, o, id);
      }
    case CancelId(x) =>
      if IsLost(m, book, x) {
        RemoveConserves(m.lost, LostPlace(m, book, x), id);
      }
  }

  /** A buy of 5 priced one beyond the ladder is neither traded nor resting nor refunded: it is held as lost. */
  lemma OutOfRangeLoses(capacity: nat, levels: nat)
    requires capacity > 0 && levels > 0
    ensures var op := Submit(IncomingOrder(1, Buy, Limit, levels, 5, 1));
            var m := Fast(capacity, levels, []);
            var s := StepOf(m, EMPTY_BOOK, op);
            && SubmittedOnce(op, 1) == HeldOf(After(m, EMPTY_BOOK, op), s.book, 1) == 5
            && Traded(s.event.trades, 1) == RestingOf(s.book, 1) == Refunded(s.event.reports, 1) == 0
  {
    var o := IncomingOrder(1, Buy, Limit, levels, 5, 1);
    NothingTraded(1);
    RefundedSnoc([], OwnReport(o, Resting, 5), 1);
    OneRemaining(StrayOf(o, 5), 1);
    LosesBuy(capacity, levels, o);
    assert AddReport(NO_EVENT, OwnReport(o, Resting, 5)).reports == [] + [OwnReport(o, Resting, 5)];
  }

  function Submitted(ops: seq<Op>, id: OrderID): Quantity {
    if ops == [] then 0 else SubmittedOnce(ops[0], id) + Submitted(ops[1..], id)
  }

  function AllTrades(events: seq<MatchEvent>): seq<Trade> {
    if events == [] then [] else events[0].trades + AllTrades(events[1..])
  }

  function AllReports(events: seq<MatchEvent>): seq<Report> {
    if events == [] then [] else events[0].reports + AllReports(events[1..])
  }

  /** Over a whole run: submitted plus held before is traded plus refunded plus held after. */
  lemma {:induction false} RunAccounts(m: Machine, book: Book, ops: seq<Op>, id: OrderID)
    requires RunFits(m, book, ops)
    ensures var r := RunOf(m, book, ops);
            Submitted(ops, id) + HeldOf(m, book, id)
            == Traded(AllTrades(r.events), id) + Refunded(AllReports(r.events), id) + HeldOf(r.machine, r.book, id)
    decreases |ops|
  {
    if ops != [] {
      hide StepOf, After, Traded, Refunded, HeldOf, Fits;
      var s, m' := StepOf(m, book, ops[0]), After(m, book, ops[0]);
      var r := RunOf(m', s.book, ops[1..]);
      StepAccounts(m, book, ops[0], id);
      RunAccounts(m', s.book, ops[1..], id);
      assert ([s.event] + r.events)[1..] == r.events;
      TradedOfConcat(s.event.trades, AllTrades(r.events), id);
      RefundedOfConcat(s.event.reports, AllReports(r.events), id);
    } else {
      NothingTraded(id);
    }
  }

  lemma StepKeepsPositive(m: Machine, book: Book, op: Op)
    requires Inv(book) && Positive(m.Lost())
    ensures Positive(After(m, book, op).Lost())
  {
    if op.Submit? && m.Accepts(op.order) {
      SweptIsDone(book, op.order);
    }
  }

  /** Every lost order has something left. */
  lemma {:induction false} RunKeepsPositive(m: Machine, book: Book, ops: seq<Op>)
    requires Inv(book) && Positive(m.Lost())
    ensures Positive(RunOf(m, book, ops).machine.Lost())
    decreases |ops|
  {
    if ops != [] {
      StepKeepsPositive(m, book, ops[0]);
      StepKeepsInv(m, book, ops[0]);
      hide StepOf, After, Positive, Inv;
      RunKeepsPositive(After(m, book, ops[0]), StepOf(m, book, ops[0]).book, ops[1..]);
    }
  }

  lemma {:induction false} RemainingIsPositive(q: seq<Entry>, id: OrderID)
    requires Positive(q)
    ensures Remaining(q, id) >= 0 && (Remaining(q, id) == 0 <==> !HasId(q, id))
  {
    if q != [] {
      RemainingIsPositive(q[1..], id);
      HasIdTail(q, id);
      hide HasId;
    }
  }

  /**
   Over a whole run that begins with nothing lost, whatever was submitted under an
   id was traded, was refunded or rests, exactly if no order with that id is lost
   in the end.
   */
  lemma RunConserves(m: Machine, book: Book, ops: seq<Op>, id: OrderID)
    requires Inv(book) && m.Lost() == [] && RunFits(m, book, ops)
    ensures var r := RunOf(m, book, ops);
            Submitted(ops, id) + RestingOf(book, id)
            == Traded(AllTrades(r.events), id) + Refunded(AllReports(r.events), id) + RestingOf(r.book, id)
            <==> !HasId(r.machine.Lost(), id)
  {
    RunAccounts(m, book, ops, id);
    RunKeepsPositive(m, book, ops);
    RemainingIsPositive(RunOf(m, book, ops).machine.Lost(), id);
    hide RunOf, RunFits, Traded, Refunded, Submitted, RestingOf;
  }

  /** A caller who only uses Limit prices with a level gets the full balance for every id, from either engine. */
  lemma FittingOpsConserve(m: Machine, ops: seq<Op>, id: OrderID)
    requires PricesFit(m, ops) && m.Lost() == []
    ensures var r := RunOf(m, EMPTY_BOOK, ops);
            Submitted(ops, id)
            == Traded(AllTrades(r.events), id) + Refunded(AllReports(r.events), id) + RestingOf(r.book, id)
  {
    PricesFitRun(m, ops);
    RunAccounts(m, EMPTY_BOOK, ops, id);
    hide RunOf, RunFits, Traded, Refunded, Submitted;
  }
}
