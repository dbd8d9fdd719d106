/**
 Reports tell the truth over whole runs: when an order is reported filled or
 cancelled, the reported quantity is the sum of every trade that names it,
 and no later trade will.
 */
module Ledger {
  import opened Types
  import opened BookSpec
  import opened BookLaws
  import opened MatchingLaws
  import opened Runs
  import opened Conservation

  /** A resting order has traded what it no longer has. */
  ghost predicate Accounted(q: seq<Entry>, trades: seq<Trade>, seen: set<OrderID>) {
    forall i :: 0 <= i < |q| ==> q[i].id in seen && q[i].quantity - q[i].remaining == Traded(trades, q[i].id)
  }

  /** A final report of a seen order that no longer rests carries everything the order traded. */
  ghost predicate Settled(r: Report, book: Book, trades: seq<Trade>, seen: set<OrderID>) {
    r.orderId in seen && !IsResting(book, r.orderId) && r.filledQuantity == Traded(trades, r.orderId)
  }

  /** A lost order has traded what it no longer has, and no resting order has its id. */
  ghost predicate LostAccounted(lost: seq<Entry>, book: Book, trades: seq<Trade>, seen: set<OrderID>) {
    forall i :: 0 <= i < |lost| ==>
      && lost[i].id in seen && !IsResting(book, lost[i].id)
      && lost[i].quantity - lost[i].remaining == Traded(trades, lost[i].id)
  }

  ghost predicate AllSettled(hist: MatchEvent, book: Book, seen: set<OrderID>) {
    forall k :: 0 <= k < |hist.reports| && hist.reports[k].IsFinal() ==>
      Settled(hist.reports[k], book, hist.trades, seen)
  }

  ghost predicate LedgerOk(m: Machine, book: Book, hist: MatchEvent, seen: set<OrderID>) {
    && Inv(book) && Unique(m, book)
    && Accounted(book.bids, hist.trades, seen)
    && Accounted(book.asks, hist.trades, seen)
    && LostAccounted(m.Lost(), book, hist.trades, seen)
    && (forall id :: id !in seen ==> Traded(hist.trades, id) == 0)
    && AllSettled(hist, book, seen)
  }

  function Extend(hist: MatchEvent, ev: MatchEvent): MatchEvent {
    MatchEvent(hist.trades + ev.trades, hist.reports + ev.reports)
  }

  lemma {:induction false} RemainingOfAbsent(q: seq<Entry>, id: OrderID)
    requires !HasId(q, id)
    ensures Remaining(q, id) == 0
  {
    if q != [] {
      assert forall i :: 0 <= i < |q[1..]| ==> q[1..][i] == q[i + 1];
      RemainingOfAbsent(q[1..], id);
    }
  }

  lemma {:induction false} RemainingOfDistinct(q: seq<Entry>, i: nat)
    requires DistinctIds(q) && i < |q|
    ensures Remaining(q, q[i].id) == q[i].remaining
  {
    if i == 0 {
      RemainingOfAbsent(q[1..], q[0].id);
    } else {
      RemainingOfDistinct(q[1..], i - 1);
    }
  }

  /** What a match gives to an id other than its own is what the queue loses under that id. */
  lemma TradedBySweep(o: IncomingOrder, left: Quantity, q: seq<Entry>, id: OrderID)
    ensures var m := MatchOf(o, left, q);
            Traded(m.event.trades, id) == Remaining(q, id) - Remaining(m.queue, id) + Own(o, left - m.left, id)
  {
    MatchConserves(o, left, q, NO_EVENT, id);
  }

  // ---------- Matching ----------

  /** After matching: the book without the incoming order, whose trades are already counted. */
  ghost predicate MidwayOk(m: Machine, book: Book, hist: MatchEvent, seen: set<OrderID>, o: IncomingOrder,
                           left: Quantity) {
    && Inv(book) && Unique(m, book)
    && Accounted(book.bids, hist.trades, seen)
    && Accounted(book.asks, hist.trades, seen)
    && LostAccounted(m.Lost(), book, hist.trades, seen)
    && o.id !in seen && Traded(hist.trades, o.id) == o.quantity - left
    && (forall id :: id !in seen && id != o.id ==> Traded(hist.trades, id) == 0)
    && AllSettled(hist, book, seen)
  }

  lemma AbsentIfUnseen(q: seq<Entry>, trades: seq<Trade>, seen: set<OrderID>, id: OrderID)
    requires Accounted(q, trades, seen) && id !in seen
    ensures !HasId(q, id)
  {
  }

  lemma SweptQueueAccounted(o: IncomingOrder, q: seq<Entry>, trades: seq<Trade>, seen: set<OrderID>)
    requires DistinctIds(q) && Accounted(q, trades, seen) && o.id !in seen
    ensures var m := MatchOf(o, o.quantity, q);
            Accounted(m.queue, trades + m.event.trades, seen)
  {
    var m := MatchOf(o, o.quantity, q);
    var n := MatchSweeps(o, o.quantity, q);
    assert DistinctIds(m.queue) by { SweptIsDistinct(q, m, n); }
    forall j | 0 <= j < |m.queue|
      ensures m.queue[j].id in seen
      ensures m.queue[j].quantity - m.queue[j].remaining == Traded(trades + m.event.trades, m.queue[j].id)
    {
      var id := m.queue[j].id;
      assert SameOrder(m.queue[j], q[n + j]);
      TradedBySweep(o, o.quantity, q, id);
      TradedOfConcat(trades, m.event.trades, id);
      RemainingOfDistinct(q, n + j);
      RemainingOfDistinct(m.queue, j);
    }
  }

  lemma SweptIsDistinct(q: seq<Entry>, m: Outcome, n: nat)
    requires DistinctIds(q) && Sweeps(q, m, n)
    ensures DistinctIds(m.queue)
  {
    assert forall j :: 0 <= j < |m.queue| ==> m.queue[j].id == q[n + j].id;
  }

  lemma UntouchedAccounted(o: IncomingOrder, q: seq<Entry>, other: seq<Entry>, trades: seq<Trade>, seen: set<OrderID>)
    requires Accounted(other, trades, seen) && o.id !in seen
    requires forall i, j :: 0 <= i < |q| && 0 <= j < |other| ==> q[i].id != other[j].id
    ensures Accounted(other, trades + MatchOf(o, o.quantity, q).event.trades, seen)
  {
    forall j | 0 <= j < |other|
      ensures Traded(trades + MatchOf(o, o.quantity, q).event.trades, other[j].id) == Traded(trades, other[j].id)
    {
      UntouchedTraded(o, q, trades, other[j].id);
    }
  }

  /** An id that is neither in the opposite queue nor the incoming one trades nothing. */
  lemma UntouchedTraded(o: IncomingOrder, q: seq<Entry>, trades: seq<Trade>, id: OrderID)
    requires !HasId(q, id) && id != o.id
    ensures Traded(trades + MatchOf(o, o.quantity, q).event.trades, id) == Traded(trades, id)
    ensures !HasId(MatchOf(o, o.quantity, q).queue, id)
  {
    SweptLacks(o, q, id);
    TradedBySweep(o, o.quantity, q, id);
    TradedOfConcat(trades, MatchOf(o, o.quantity, q).event.trades, id);
    RemainingOfAbsent(q, id);
    RemainingOfAbsent(MatchOf(o, o.quantity, q).queue, id);
  }

  lemma SweptLacks(o: IncomingOrder, q: seq<Entry>, id: OrderID)
    requires !HasId(q, id)
    ensures !HasId(MatchOf(o, o.quantity, q).queue, id)
  {
    var n := MatchSweeps(o, o.quantity, q);
    hide Match;
    var r := MatchOf(o, o.quantity, q).queue;
    forall j | 0 <= j < |r|
      ensures r[j].id != id
    {
      assert SameOrder(r[j], q[n + j]);
    }
  }

  /** The incoming order itself trades what it fills. */
  lemma OwnTraded(o: IncomingOrder, q: seq<Entry>, trades: seq<Trade>)
    requires !HasId(q, o.id)
    ensures var m := MatchOf(o, o.quantity, q);
            Traded(trades + m.event.trades, o.id) == Traded(trades, o.id) + o.quantity - m.left
  {
    SweptLacks(o, q, o.id);
    TradedBySweep(o, o.quantity, q, o.id);
    TradedOfConcat(trades, MatchOf(o, o.quantity, q).event.trades, o.id);
    RemainingOfAbsent(q, o.id);
    RemainingOfAbsent(MatchOf(o, o.quantity, q).queue, o.id);
  }

  /** An order that matching filled has traded its whole quantity, and is gone. */
  lemma FilledSettled(o: IncomingOrder, q: seq<Entry>, trades: seq<Trade>, seen: set<OrderID>, k: nat)
    requires DistinctIds(q) && Accounted(q, trades, seen) && o.id !in seen
    requires k < |MatchOf(o, o.quantity, q).event.reports|
    ensures var m := MatchOf(o, o.quantity, q);
            var r := m.event.reports[k];
            && r.orderId in seen && HasId(q, r.orderId) && !HasId(m.queue, r.orderId)
            && r.filledQuantity == Traded(trades + m.event.trades, r.orderId)
  {
    hide Match, Traded, Remaining;
    var m := MatchOf(o, o.quantity, q);
    var n := MatchSweeps(o, o.quantity, q);
    var id := q[k].id;
    TradedBySweep(o, o.quantity, q, id);
    TradedOfConcat(trades, m.event.trades, id);
    RemainingOfDistinct(q, k);
    forall j | 0 <= j < |m.queue|
      ensures m.queue[j].id != id
    {
      assert SameOrder(m.queue[j], q[n + j]);
    }
    RemainingOfAbsent(m.queue, id);
  }

  lemma LostStaysAccounted(lost: seq<Entry>, book: Book, trades: seq<Trade>, seen: set<OrderID>, o: IncomingOrder)
    requires LostAccounted(lost, book, trades, seen) && o.id !in seen
    ensures LostAccounted(lost, Swept(book, o), trades + MatchIn(book, o).event.trades, seen)
  {
    hide Match, Traded;
    forall i | 0 <= i < |lost|
      ensures !IsResting(Swept(book, o), lost[i].id)
      ensures Traded(trades + MatchIn(book, o).event.trades, lost[i].id) == Traded(trades, lost[i].id)
    {
      UntouchedTraded(o, book.Queue(o.side.Opposite()), trades, lost[i].id);
    }
  }

  lemma MatchAccounts(m: Machine, book: Book, hist: MatchEvent, seen: set<OrderID>, o: IncomingOrder)
    requires LedgerOk(m, book, hist, seen) && o.id !in seen
    ensures var trades := hist.trades + MatchIn(book, o).event.trades;
            Accounted(Swept(book, o).bids, trades, seen) && Accounted(Swept(book, o).asks, trades, seen)
  {
    hide Match, Traded, Inv, Accounted, AllMapped, OnLevels;
    var q, own := book.Queue(o.side.Opposite()), book.Queue(o.side);
    SweptQueueAccounted(o, q, hist.trades, seen);
    UntouchedAccounted(o, q, own, hist.trades, seen);
  }

  /** What ids that were not seen before have traded after a match. */
  lemma UnseenTraded(m: Machine, book: Book, hist: MatchEvent, seen: set<OrderID>, o: IncomingOrder)
    requires LedgerOk(m, book, hist, seen) && o.id !in seen
    ensures var trades := hist.trades + MatchIn(book, o).event.trades;
            && Traded(trades, o.id) == o.quantity - MatchIn(book, o).left
            && forall id :: id !in seen && id != o.id ==> Traded(trades, id) == 0
  {
    hide Match, Traded, Inv, Unique;
    var q := book.Queue(o.side.Opposite());
    AbsentIfUnseen(q, hist.trades, seen, o.id);
    OwnTraded(o, q, hist.trades);
    forall id | id !in seen && id != o.id
      ensures Traded(hist.trades + MatchIn(book, o).event.trades, id) == 0
    {
      AbsentIfUnseen(q, hist.trades, seen, id);
      UntouchedTraded(o, q, hist.trades, id);
    }
  }

  lemma MatchKeepsLedger(m: Machine, book: Book, hist: MatchEvent, seen: set<OrderID>, o: IncomingOrder)
    requires LedgerOk(m, book, hist, seen) && o.quantity > 0 && o.id !in seen
    ensures MidwayOk(m, Swept(book, o), Extend(hist, MatchIn(book, o).event), seen, o, MatchIn(book, o).left)
  {
    hide Inv, Unique, MatchIn, Swept, Traded, IsResting, Accounted, Settled;
    var hist' := Extend(hist, MatchIn(book, o).event);
    SweptIsDone(book, o);
    MatchKeepsUnique(m, book, o);
    MatchAccounts(m, book, hist, seen, o);
    LostStaysAccounted(m.Lost(), book, hist.trades, seen, o);
    UnseenTraded(m, book, hist, seen, o);
    forall k | 0 <= k < |hist'.reports| && hist'.reports[k].IsFinal()
      ensures Settled(hist'.reports[k], Swept(book, o), hist'.trades, seen)
    {
      MatchSettles(m, book, hist, seen, o, k);
    }
  }

  lemma MatchSettles(m: Machine, book: Book, hist: MatchEvent, seen: set<OrderID>, o: IncomingOrder, k: nat)
    requires LedgerOk(m, book, hist, seen) && o.quantity > 0 && o.id !in seen
    requires var hist' := Extend(hist, MatchIn(book, o).event);
             k < |hist'.reports| && hist'.reports[k].IsFinal()
    ensures var hist' := Extend(hist, MatchIn(book, o).event);
            Settled(hist'.reports[k], Swept(book, o), hist'.trades, seen)
  {
    hide Match, Traded, Inv;
    var q := book.Queue(o.side.Opposite());
    var hist' := Extend(hist, MatchIn(book, o).event);
    if k < |hist.reports| {
      assert hist'.reports[k] == hist.reports[k];
      UntouchedTraded(o, q, hist.trades, hist.reports[k].orderId);
    } else {
      assert hist'.reports[k] == MatchIn(book, o).event.reports[k - |hist.reports|];
      FilledSettled(o, q, hist.trades, seen, k - |hist.reports|);
    }
  }

  // ---------- Whole steps ----------

  /** A new report: it settles its own order, and the others stay settled. */
  lemma ReportSettles(hist: MatchEvent, r: Report, book: Book, seen: set<OrderID>, more: set<OrderID>)
    requires AllSettled(hist, book, seen) && seen <= more
    requires r.IsFinal() ==> Settled(r, book, hist.trades, more)
    ensures AllSettled(AddReport(hist, r), book, more)
  {
    var hist' := AddReport(hist, r);
    forall k | 0 <= k < |hist'.reports| && hist'.reports[k].IsFinal()
      ensures Settled(hist'.reports[k], book, hist'.trades, more)
    {
      assert k < |hist.reports| ==> hist'.reports[k] == hist.reports[k];
    }
  }

  /** Reporting an order that does not rest. */
  lemma FinishKeepsLedger(m: Machine, book: Book, hist: MatchEvent, seen: set<OrderID>, o: IncomingOrder,
                          left: Quantity, r: Report)
    requires MidwayOk(m, book, hist, seen, o, left)
    requires r.orderId == o.id && r.filledQuantity == o.quantity - left
    ensures LedgerOk(m, book, AddReport(hist, r), seen + {o.id})
  {
    AbsentIfUnseen(book.bids, hist.trades, seen, o.id);
    AbsentIfUnseen(book.asks, hist.trades, seen, o.id);
    ReportSettles(hist, r, book, seen, seen + {o.id});
    hide Inv, Unique;
  }

  /** Mapping the id of an order that is lost: it has traded what its report says. */
  lemma MisfileKeepsLedger(m: Machine, book: Book, hist: MatchEvent, seen: set<OrderID>, o: IncomingOrder,
                           left: Quantity)
    requires MidwayOk(m, book, hist, seen, o, left) && m.Fast?
    ensures LedgerOk(m.(lost := m.lost + [StrayOf(o, left)]), Mapped(book, o),
                     AddReport(hist, OwnReport(o, Resting, left)), seen + {o.id})
  {
    var m', book' := m.(lost := m.lost + [StrayOf(o, left)]), Mapped(book, o);
    AbsentIfUnseen(book.bids, hist.trades, seen, o.id);
    AbsentIfUnseen(book.asks, hist.trades, seen, o.id);
    MappedKeepsUnique(m, book, o);
    SameLevels(m, m', book');
    ReportSettles(hist, OwnReport(o, Resting, left), book, seen, seen + {o.id});
    hide Inv, Unique;
    forall i | 0 <= i < |m'.lost|
      ensures var e := m'.lost[i];
              && e.id in seen + {o.id} && !IsResting(book', e.id)
              && e.quantity - e.remaining == Traded(hist.trades, e.id)
    {
      assert i < |m.lost| ==> m'.lost[i] == m.lost[i];
    }
    assert AllSettled(AddReport(hist, OwnReport(o, Resting, left)), book', seen + {o.id});
  }

  /** Resting what is left of an order. */
  lemma RestKeepsLedger(m: Machine, book: Book, hist: MatchEvent, seen: set<OrderID>, o: IncomingOrder, left: Quantity)
    requires MidwayOk(m, book, hist, seen, o, left) && o.otype.Limit? && 0 < left <= o.quantity && m.HasLevel(o.price)
    requires Done(o, left, book.Queue(o.side.Opposite()))
    ensures LedgerOk(m, Rest(book, o, left), AddReport(hist, OwnReport(o, Resting, left)), seen + {o.id})
  {
    hide Unique, SoundQueue, Uncrossed, BookSpec.Insert, Traded, HasId, Accounted, LostAccounted, AllSettled, Done;
    var hist' := AddReport(hist, OwnReport(o, Resting, left));
    AbsentIfUnseen(book.bids, hist.trades, seen, o.id);
    AbsentIfUnseen(book.asks, hist.trades, seen, o.id);
    RestKeepsInv(book, o, left);
    RestIsAccounted(m, book, hist, seen, o, left);
    RestKeepsOthersSettled(m, book, hist, seen, o, left);
    QueueIsSorted(book, o.side);
    RestKeepsUnique(m, book, o, left);
  }

  lemma RestIsAccounted(m: Machine, book: Book, hist: MatchEvent, seen: set<OrderID>, o: IncomingOrder, left: Quantity)
    requires MidwayOk(m, book, hist, seen, o, left)
    ensures Accounted(Rest(book, o, left).bids, hist.trades, seen + {o.id})
    ensures Accounted(Rest(book, o, left).asks, hist.trades, seen + {o.id})
    ensures forall id :: id !in seen + {o.id} ==> Traded(hist.trades, id) == 0
  {
    hide Unique, BookSpec.Insert, Traded, LostAccounted, AllSettled, Uncrossed;
    RestAccounted(book.Queue(o.side), EntryOf(o, left), hist.trades, seen, o.side);
  }

  /** An order that comes to rest disturbs no report and no lost order. */
  lemma RestKeepsOthersSettled(m: Machine, book: Book, hist: MatchEvent, seen: set<OrderID>, o: IncomingOrder,
                               left: Quantity)
    requires MidwayOk(m, book, hist, seen, o, left)
    ensures AllSettled(AddReport(hist, OwnReport(o, Resting, left)), Rest(book, o, left), seen + {o.id})
    ensures LostAccounted(m.Lost(), Rest(book, o, left), hist.trades, seen + {o.id})
  {
    hide Unique, Traded, Accounted, Uncrossed;
    var r := Rest(book, o, left);
    forall id | !IsResting(book, id) && id != o.id
      ensures !IsResting(r, id)
    {
      RestIds(book.Queue(o.side), EntryOf(o, left), o.side, id);
    }
    hide BookSpec.Insert, HasId, Inv;
    assert AllSettled(hist, r, seen);
    ReportSettles(hist, OwnReport(o, Resting, left), r, seen, seen + {o.id});
  }

  lemma RestIds(q: seq<Entry>, e: Entry, side: Side, id: OrderID)
    requires Sorted(side, q) && e.side == side && !HasId(q, id) && id != e.id
    ensures !HasId(BookSpec.Insert(q, e), id)
  {
    var k := InsertPlace(q, e);
  }

  lemma RestAccounted(q: seq<Entry>, e: Entry, trades: seq<Trade>, seen: set<OrderID>, side: Side)
    requires Sorted(side, q) && e.side == side && Accounted(q, trades, seen)
    requires e.quantity - e.remaining == Traded(trades, e.id)
    ensures Accounted(BookSpec.Insert(q, e), trades, seen + {e.id})
  {
    var k := InsertPlace(q, e);
    var r := InsertAt(q, k, e);
    forall i | 0 <= i < |r|
      ensures r[i].id in seen + {e.id} && r[i].quantity - r[i].remaining == Traded(trades, r[i].id)
    {
      assert r[i] == if i < k then q[i] else if i == k then e else q[i - 1];
    }
  }

  lemma LedgerHasInv(m: Machine, book: Book, hist: MatchEvent, seen: set<OrderID>)
    requires LedgerOk(m, book, hist, seen)
    ensures Inv(book) && Unique(m, book)
  {
  }

  lemma ExtendReport(hist: MatchEvent, ev: MatchEvent, r: Report)
    ensures Extend(hist, AddReport(ev, r)) == AddReport(Extend(hist, ev), r)
  {
    assert hist.reports + (ev.reports + [r]) == (hist.reports + ev.reports) + [r];
  }

  lemma ProcessKeepsLedger(m: Machine, book: Book, hist: MatchEvent, seen: set<OrderID>, o: IncomingOrder)
    requires LedgerOk(m, book, hist, seen) && o.id !in seen && m.Accepts(o)
    ensures var s := Process(m, book, o);
            LedgerOk(Next(m, book, o), s.book, Extend(hist, s.event), seen + {o.id})
  {
    hide LedgerOk, MidwayOk;
    var r := MatchIn(book, o);
    var hist' := Extend(hist, r.event);
    LedgerHasInv(m, book, hist, seen);
    MatchKeepsLedger(m, book, hist, seen, o);
    SweptIsDone(book, o);
    hide MatchIn, Swept, Rest, Mapped, Extend;
    ExtendReport(hist, r.event, OwnReport(o, Filled, 0));
    ExtendReport(hist, r.event, OwnReport(o, Resting, r.left));
    ExtendReport(hist, r.event, OwnReport(o, Cancelled, r.left));
    if r.left == 0 {
      FinishKeepsLedger(m, Swept(book, o), hist', seen, o, 0, OwnReport(o, Filled, 0));
    } else if Misfiles(m, book, o) {
      MisfileKeepsLedger(m, Swept(book, o), hist', seen, o, r.left);
    } else if Rests(m, book, o) {
      RestKeepsLedger(m, Swept(book, o), hist', seen, o, r.left);
    } else {
      FinishKeepsLedger(m, Swept(book, o), hist', seen, o, r.left, OwnReport(o, Cancelled, r.left));
    }
  }

  lemma RejectKeepsLedger(m: Machine, book: Book, hist: MatchEvent, seen: set<OrderID>, o: IncomingOrder)
    requires LedgerOk(m, book, hist, seen) && o.id !in seen
    ensures LedgerOk(m, book, Extend(hist, Reject(book, o).event), seen + {o.id})
  {
    AbsentIfUnseen(book.bids, hist.trades, seen, o.id);
    AbsentIfUnseen(book.asks, hist.trades, seen, o.id);
    ReportSettles(hist, RejectReport(o), book, seen, seen + {o.id});
    assert Extend(hist, Reject(book, o).event) == AddReport(hist, RejectReport(o));
    hide Inv, Unique;
  }

  lemma RemovedIsGone(m: Machine, book: Book, side: Side, n: nat)
    requires Unique(m, book) && n < |book.Queue(side)|
    ensures !IsResting(TakeOut(book, book.Queue(side)[n].id, side, n).book, book.Queue(side)[n].id)
  {
  }

  lemma RemovedAddsNone(book: Book, side: Side, n: nat, id: OrderID)
    requires n < |book.Queue(side)| && !IsResting(book, id)
    ensures !IsResting(TakeOut(book, book.Queue(side)[n].id, side, n).book, id)
  {
  }

  lemma RemoveKeepsLedger(m: Machine, book: Book, hist: MatchEvent, seen: set<OrderID>, side: Side, n: nat)
    requires LedgerOk(m, book, hist, seen) && n < |book.Queue(side)|
    ensures var s := TakeOut(book, book.Queue(side)[n].id, side, n);
            LedgerOk(m, s.book, AddReport(hist, CancelReport(book.Queue(side)[n])), seen)
  {
    var e := book.Queue(side)[n];
    var book' := TakeOut(book, e.id, side, n).book;
    RemoveKeepsInv(book, side, n);
    RemoveKeepsUnique(m, book, side, n);
    RemovedIsGone(m, book, side, n);
    forall id | !IsResting(book, id)
      ensures !IsResting(book', id)
    {
      RemovedAddsNone(book, side, n, id);
    }
    hide Unique, SoundQueue, Uncrossed, HasId, Traded;
    assert AllSettled(hist, book', seen);
    ReportSettles(hist, CancelReport(e), book', seen, seen);
  }

  /** The cancel of a lost order reports what it traded. */
  lemma FreeKeepsLedger(m: Machine, book: Book, hist: MatchEvent, seen: set<OrderID>, id: OrderID)
    requires LedgerOk(m, book, hist, seen) && IsLost(m, book, id)
    ensures LedgerOk(Released(m, book, id), book.(ids := book.ids[id := Freed]),
                     AddReport(hist, CancelReport(m.Lost()[LostPlace(m, book, id)])), seen)
  {
    var k := LostPlace(m, book, id);
    var book' := book.(ids := book.ids[id := Freed]);
    FreedKeepsUnique(m, book, id) by { LostIsNotResting(m, book, id); }
    SameLevels(m, Released(m, book, id), book');
    assert AllSettled(hist, book', seen);
    ReportSettles(hist, CancelReport(m.lost[k]), book', seen, seen);
    hide Unique, Inv, Traded, HasId;
    forall i | 0 <= i < |m.lost| - 1
      ensures RemoveAt(m.lost, k)[i] == m.lost[if i < k then i else i + 1]
    {
    }
  }

  lemma CancelKeepsLedger(m: Machine, book: Book, hist: MatchEvent, seen: set<OrderID>, id: OrderID)
    requires LedgerOk(m, book, hist, seen)
    ensures var s := Cancel(m, book, id);
            LedgerOk(Released(m, book, id), s.book, Extend(hist, s.event), seen)
  {
    hide LedgerOk;
    forall r
      ensures Extend(hist, AddReport(NO_EVENT, r)) == AddReport(hist, r)
    {
    }
    assert Extend(hist, NO_EVENT) == hist;
    if IsLost(m, book, id) {
      FreeKeepsLedger(m, book, hist, seen, id);
    } else if id in book.ids && book.ids[id].Shelf? {
      var p := book.ids[id];
      var k := FindLast(book.Queue(p.side), id, p.price);
      if k < |book.Queue(p.side)| {
        RemoveKeepsLedger(m, book, hist, seen, p.side, k);
      }
    }
  }

  // ---------- Whole runs ----------

  function SeenAfter(ops: seq<Op>, seen: set<OrderID>): set<OrderID> {
    if ops == [] then seen
    else SeenAfter(ops[1..], SeenOnce(ops[0], seen))
  }

  function HistoryOf(events: seq<MatchEvent>): MatchEvent {
    MatchEvent(AllTrades(events), AllReports(events))
  }

  lemma StepKeepsLedger(m: Machine, book: Book, hist: MatchEvent, seen: set<OrderID>, op: Op)
    requires LedgerOk(m, book, hist, seen) && (op.Submit? ==> op.order.id !in seen)
    ensures var s := StepOf(m, book, op);
            LedgerOk(After(m, book, op), s.book, Extend(hist, s.event), SeenOnce(op, seen))
  {
    hide LedgerOk, Settle;
    match op
    case Submit(o) =>
      if m.Accepts(o) {
        ProcessKeepsLedger(m, book, hist, seen, o);
      } else {
        RejectKeepsLedger(m, book, hist, seen, o);
      }
    case CancelId(id) =>
      CancelKeepsLedger(m, book, hist, seen, id);
  }

  lemma ExtendNothing(hist: MatchEvent)
    ensures Extend(hist, HistoryOf([])) == hist
  {
  }

  lemma ExtendStep(hist: MatchEvent, ev: MatchEvent, events: seq<MatchEvent>)
    ensures Extend(hist, HistoryOf([ev] + events)) == Extend(Extend(hist, ev), HistoryOf(events))
  {
    assert ([ev] + events)[1..] == events;
  }

  lemma {:induction false} RunKeepsLedger(m: Machine, book: Book, hist: MatchEvent, seen: set<OrderID>, ops: seq<Op>)
    requires LedgerOk(m, book, hist, seen) && FreshIds(ops, seen) && RunFits(m, book, ops)
    ensures var r := RunOf(m, book, ops);
            LedgerOk(r.machine, r.book, Extend(hist, HistoryOf(r.events)), SeenAfter(ops, seen))
    decreases |ops|
  {
    hide LedgerOk, StepOf, After, Fits, Extend, HistoryOf;
    if ops == [] {
      ExtendNothing(hist);
    } else {
      var s, m' := StepOf(m, book, ops[0]), After(m, book, ops[0]);
      StepKeepsLedger(m, book, hist, seen, ops[0]);
      RunKeepsLedger(m', s.book, Extend(hist, s.event), SeenOnce(ops[0], seen), ops[1..]);
      ExtendStep(hist, s.event, RunOf(m', s.book, ops[1..]).events);
    }
  }

  lemma EmptyLedger(m: Machine)
    requires m.Lost() == []
    ensures LedgerOk(m, EMPTY_BOOK, NO_EVENT, {})
  {
  }

  /**
   Of any run from the empty book with distinct ids: every Filled or Cancelled
   report carries exactly what its order traded in the whole run, and every
   resting or lost order has traded exactly what it no longer has.
   */
  lemma ReportsAreFinal(m: Machine, ops: seq<Op>)
    requires FreshIds(ops, {}) && m.Lost() == [] && RunFits(m, EMPTY_BOOK, ops)
    ensures var r := RunOf(m, EMPTY_BOOK, ops);
            && Inv(r.book) && Unique(r.machine, r.book)
            && (forall k :: 0 <= k < |AllReports(r.events)| && AllReports(r.events)[k].IsFinal() ==>
                  AllReports(r.events)[k].filledQuantity == Traded(AllTrades(r.events), AllReports(r.events)[k].orderId)
                  && !IsResting(r.book, AllReports(r.events)[k].orderId))
            && (forall side, i :: 0 <= i < |r.book.Queue(side)| ==>
                  r.book.Queue(side)[i].quantity - r.book.Queue(side)[i].remaining
                  == Traded(AllTrades(r.events), r.book.Queue(side)[i].id))
            && (forall i :: 0 <= i < |r.machine.Lost()| ==>
                  r.machine.Lost()[i].quantity - r.machine.Lost()[i].remaining
                  == Traded(AllTrades(r.events), r.machine.Lost()[i].id))
  {
    hide RunOf, RunFits, AllTrades, AllReports, Inv, Unique, Traded, IsResting;
    EmptyLedger(m);
    RunKeepsLedger(m, EMPTY_BOOK, NO_EVENT, {}, ops);
    var r := RunOf(m, EMPTY_BOOK, ops);
    assert Extend(NO_EVENT, HistoryOf(r.events)) == HistoryOf(r.events);
  }
}
