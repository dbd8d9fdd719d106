/**
 Every submission is answered exactly once: it rests in the book, or one final
 report (Filled or Cancelled) has been made for it.
 */
module Lifecycle {
  import opened Types
  import opened BookSpec
  import opened BookLaws
  import opened Runs
  import opened Conservation

  /** The number of final reports for an id. */
  function Finals(reports: seq<Report>, id: OrderID): nat {
    if reports == [] then 0
    else Finals(reports[..|reports| - 1], id) + FinalsOnce(reports[|reports| - 1], id)
  }

  function FinalsOnce(r: Report, id: OrderID): nat {
    if r.orderId == id && r.IsFinal() then 1 else 0
  }

  /** The number of orders of a queue with this id. */
  function Queued(q: seq<Entry>, id: OrderID): nat {
    if q == [] then 0 else (if q[0].id == id then 1 else 0) + Queued(q[1..], id)
  }

  function QueuedIn(book: Book, id: OrderID): nat {
    Queued(book.bids, id) + Queued(book.asks, id)
  }

  lemma FinalsSnoc(reports: seq<Report>, r: Report, id: OrderID)
    ensures Finals(reports + [r], id) == Finals(reports, id) + FinalsOnce(r, id)
  {
    assert (reports + [r])[..|reports|] == reports;
  }

  lemma {:induction false} FinalsOfConcat(a: seq<Report>, b: seq<Report>, id: OrderID)
    ensures Finals(a + b, id) == Finals(a, id) + Finals(b, id)
  {
    if b == [] {
      assert a + b == a;
    } else {
      assert a + b == (a + b[..|b| - 1]) + [b[|b| - 1]];
      FinalsSnoc(a + b[..|b| - 1], b[|b| - 1], id);
      FinalsOfConcat(a, b[..|b| - 1], id);
    }
  }

  lemma {:induction false} QueuedOfConcat(a: seq<Entry>, b: seq<Entry>, id: OrderID)
    ensures Queued(a + b, id) == Queued(a, id) + Queued(b, id)
  {
    if a == [] {
      assert a + b == b;
    } else {
      assert (a + b)[1..] == a[1..] + b;
      QueuedOfConcat(a[1..], b, id);
    }
  }

  /** Matching answers exactly the orders it takes out of the queue. */
  lemma {:induction false} MatchAnswers(o: IncomingOrder, left: Quantity, q: seq<Entry>, ev: MatchEvent, id: OrderID)
    ensures var m := Match(o, left, q, ev);
            Finals(m.event.reports, id) + Queued(m.queue, id) == Finals(ev.reports, id) + Queued(q, id)
    decreases |q|
  {
    if !Done(o, left, q) {
      var f := Fill(o, left, q, ev);
      FinalsSnoc(ev.reports, FilledReport(q[0]), id);
      QueuedOfConcat([Reduced(q[0], Min(left, q[0].remaining))], q[1..], id);
      if |f.queue| < |q| {
        MatchAnswers(o, f.left, f.queue, f.event, id);
      }
    }
  }

  lemma {:induction false} InsertQueues(q: seq<Entry>, e: Entry, id: OrderID)
    ensures Queued(BookSpec.Insert(q, e), id) == Queued(q, id) + (if e.id == id then 1 else 0)
  {
    if q == [] || Better(e.side, e.price, q[0].price) {
      QueuedOfConcat([e], q, id);
    } else {
      InsertQueues(q[1..], e, id);
      QueuedOfConcat([q[0]], BookSpec.Insert(q[1..], e), id);
    }
  }

  lemma RemoveUnqueues(q: seq<Entry>, k: nat, id: OrderID)
    requires k < |q|
    ensures Queued(q, id) == Queued(RemoveAt(q, k), id) + (if q[k].id == id then 1 else 0)
  {
    assert RemoveAt(q, k) == q[..k] + q[k + 1..];
    assert q == q[..k] + ([q[k]] + q[k + 1..]);
    QueuedOfConcat(q[..k], q[k + 1..], id);
    QueuedOfConcat(q[..k], [q[k]] + q[k + 1..], id);
    QueuedOfConcat([q[k]], q[k + 1..], id);
  }

  function SubmissionsOnce(op: Op, id: OrderID): nat {
    if op.Submit? && op.order.id == id then 1 else 0
  }

  lemma NothingFinal(id: OrderID)
    ensures Finals([], id) == 0
  {
  }

  lemma SettleAnswers(book: Book, o: IncomingOrder, room: bool, id: OrderID)
    ensures var s := Settle(book, o, room);
            SubmissionsOnce(Submit(o), id) + QueuedIn(book, id) == Finals(s.event.reports, id) + QueuedIn(s.book, id)
  {
    hide Match, BookSpec.Insert, Finals, Queued;
    NothingFinal(id);
    var m := MatchIn(book, o);
    MatchAnswers(o, o.quantity, book.Queue(o.side.Opposite()), NO_EVENT, id);
    FinalsSnoc(m.event.reports, OwnReport(o, Filled, 0), id);
    FinalsSnoc(m.event.reports, OwnReport(o, Resting, m.left), id);
    FinalsSnoc(m.event.reports, OwnReport(o, Cancelled, m.left), id);
    InsertQueues(book.Queue(o.side), EntryOf(o, m.left), id);
  }

  /** The number of resting and lost orders with this id. */
  function HeldIn(m: Machine, book: Book, id: OrderID): nat {
    QueuedIn(book, id) + Queued(m.Lost(), id)
  }

  lemma MisfiledIsHeldOnce(m: Machine, book: Book, o: IncomingOrder, id: OrderID)
    requires Misfiles(m, book, o)
    ensures var left := MatchIn(book, o).left;
            && Settle(book, o, true).book == Rest(Swept(book, o), o, left)
            && QueuedIn(Rest(Swept(book, o), o, left), id)
               == QueuedIn(Swept(book, o), id) + SubmissionsOnce(Submit(o), id)
            && Queued(Next(m, book, o).Lost(), id) == Queued(m.Lost(), id) + SubmissionsOnce(Submit(o), id)
  {
    hide Match, BookSpec.Insert, Queued;
    var e := StrayOf(o, MatchIn(book, o).left);
    InsertQueues(Swept(book, o).Queue(o.side), EntryOf(o, MatchIn(book, o).left), id);
    QueuedOfConcat(m.lost, [e], id);
    OneQueued(e, id);
  }

  lemma OneQueued(e: Entry, id: OrderID)
    ensures Queued([e], id) == if e.id == id then 1 else 0
  {
    assert [e][1..] == [];
  }

  lemma CancelAnswersOnce(m: Machine, book: Book, x: OrderID, id: OrderID)
    ensures var s := Cancel(m, book, x);
            HeldIn(m, book, id) == Finals(s.event.reports, id) + HeldIn(Released(m, book, x), s.book, id)
  {
    hide Finals, Queued;
    NothingFinal(id);
    if IsLost(m, book, x) {
      var k := LostPlace(m, book, x);
      RemoveUnqueues(m.lost, k, id);
      FinalsSnoc([], CancelReport(m.lost[k]), id);
    } else if x in book.ids && book.ids[x].Shelf? {
      var p := book.ids[x];
      var q := book.Queue(p.side);
      var k := FindLast(q, x, p.price);
      if k < |q| {
        RemoveUnqueues(q, k, id);
        FinalsSnoc([], CancelReport(q[k]), id);
      }
    }
  }

  /**
   One step of either engine: for every id, submissions plus orders held before
   are final reports plus orders held after.
   */
  lemma StepAnswers(m: Machine, book: Book, op: Op, id: OrderID)
    requires Fits(book, op)
    ensures var s := StepOf(m, book, op);
            SubmissionsOnce(op, id) + HeldIn(m, book, id)
            == Finals(s.event.reports, id) + HeldIn(After(m, book, op), s.book, id)
  {
    hide Settle, Finals, Queued;
    NothingFinal(id);
    match op
    case Submit(o) =>
      SettleAnswers(book, o, m.HasRoom(Swept(book, o)), id);
      FinalsSnoc([], RejectReport(o), id);
      if Misfiles(m, book, o) {
        MisfiledIsHeldOnce(m, book, o, id);
      }
    case CancelId(x) =>
      CancelAnswersOnce(m, book, x, id);
  }

  /** A buy priced one beyond the ladder neither rests nor gets a final report. */
  lemma OutOfRangeUnanswered(capacity: nat, levels: nat)
    requires capacity > 0 && levels > 0
    ensures var op := Submit(IncomingOrder(1, Buy, Limit, levels, 5, 1));
            var m := Fast(capacity, levels, []);
            var s := StepOf(m, EMPTY_BOOK, op);
            && SubmissionsOnce(op, 1) == HeldIn(After(m, EMPTY_BOOK, op), s.book, 1) == 1
            && Finals(s.event.reports, 1) == QueuedIn(s.book, 1) == 0
  {
    var o := IncomingOrder(1, Buy, Limit, levels, 5, 1);
    NothingFinal(1);
    FinalsSnoc([], OwnReport(o, Resting, 5), 1);
    OneQueued(StrayOf(o, 5), 1);
    LosesBuy(capacity, levels, o);
    assert AddReport(NO_EVENT, OwnReport(o, Resting, 5)).reports == [] + [OwnReport(o, Resting, 5)];
  }

  /** How often an id is submitted. */
  function Submissions(ops: seq<Op>, id: OrderID): nat {
    if ops == [] then 0 else SubmissionsOnce(ops[0], id) + Submissions(ops[1..], id)
  }

  lemma {:induction false} RunAnswers(m: Machine, book: Book, ops: seq<Op>, id: OrderID)
    requires RunFits(m, book, ops)
    ensures var r := RunOf(m, book, ops);
            Submissions(ops, id) + HeldIn(m, book, id)
            == Finals(AllReports(r.events), id) + HeldIn(r.machine, r.book, id)
    decreases |ops|
  {
    if ops != [] {
      hide StepOf, After, Fits, HeldIn, Finals;
      var s, m' := StepOf(m, book, ops[0]), After(m, book, ops[0]);
      var r := RunOf(m', s.book, ops[1..]);
      StepAnswers(m, book, ops[0], id);
      RunAnswers(m', s.book, ops[1..], id);
      assert ([s.event] + r.events)[1..] == r.events;
      FinalsOfConcat(s.event.reports, AllReports(r.events), id);
    } else {
      NothingFinal(id);
    }
  }

  lemma {:induction false} FreshIdsOnce(ops: seq<Op>, seen: set<OrderID>, id: OrderID)
    requires FreshIds(ops, seen)
    ensures Submissions(ops, id) <= if id in seen then 0 else 1
  {
    if ops != [] {
      FreshIdsOnce(ops[1..], SeenOnce(ops[0], seen), id);
    }
  }

  lemma {:induction false} QueuedHasId(q: seq<Entry>, id: OrderID)
    ensures Queued(q, id) == 0 <==> !HasId(q, id)
  {
    if q != [] {
      QueuedHasId(q[1..], id);
      HasIdTail(q, id);
      hide HasId;
    }
  }

  /**
   Of every run from the empty book with distinct ids: a submitted id rests once
   or has exactly one final report, unless its order is lost in the end, and
   exactly then it has neither. No other id is ever reported final.
   */
  lemma AnsweredExactlyOnce(m: Machine, ops: seq<Op>, id: OrderID)
    requires FreshIds(ops, {}) && m.Lost() == [] && RunFits(m, EMPTY_BOOK, ops)
    ensures var r := RunOf(m, EMPTY_BOOK, ops);
            var answers := Finals(AllReports(r.events), id) + QueuedIn(r.book, id);
            && answers <= Submissions(ops, id) <= 1
            && (answers == Submissions(ops, id) <==> !HasId(r.machine.Lost(), id))
  {
    RunAnswers(m, EMPTY_BOOK, ops, id);
    FreshIdsOnce(ops, {}, id);
    QueuedHasId(RunOf(m, EMPTY_BOOK, ops).machine.Lost(), id);
  }

  /** What a caller can see to: distinct ids and Limit prices with a level, and every submission is answered once. */
  lemma FreshOpsAnswered(m: Machine, ops: seq<Op>, id: OrderID)
    requires FreshIds(ops, {}) && PricesFit(m, ops) && m.Lost() == []
    ensures var r := RunOf(m, EMPTY_BOOK, ops);
            Finals(AllReports(r.events), id) + QueuedIn(r.book, id) == Submissions(ops, id) <= 1
  {
    PricesFitRun(m, ops);
    AnsweredExactlyOnce(m, ops, id);
    hide RunOf, RunFits, Finals, Queued;
  }
}
