/**
 Whole runs of the two engines: when they agree, and what every reachable book
 keeps.
 */
module Runs {
  import opened Types
  import opened BookSpec
  import opened BookLaws

  datatype Op = Submit(order: IncomingOrder) | CancelId(id: OrderID)

  function StepOf(m: Machine, book: Book, op: Op): Step {
    match op
    case Submit(o) => Process(m, book, o)
    case CancelId(id) => Cancel(m, book, id)
  }

  /** The engine after a step: it may have lost an order, or given one back. */
  function After(m: Machine, book: Book, op: Op): Machine {
    match op
    case Submit(o) => Next(m, book, o)
    case CancelId(id) => Released(m, book, id)
  }

  /**
   The step is specified. Cancelling the id of a lost order for the second time
   is not: its slot is free by then, or holds another order.
   */
  predicate Fits(book: Book, op: Op) {
    op.CancelId? ==> Cancellable(book, op.id)
  }

  datatype Run = Run(machine: Machine, book: Book, events: seq<MatchEvent>)

  /** The engine and its book after a run, and the event of each step. */
  function RunOf(m: Machine, book: Book, ops: seq<Op>): (r: Run)
    ensures |r.events| == |ops|
    decreases |ops|
  {
    if ops == [] then Run(m, book, [])
    else
      var s := StepOf(m, book, ops[0]);
      var r := RunOf(After(m, book, ops[0]), s.book, ops[1..]);
      r.(events := [s.event] + r.events)
  }

  /** The event and the book of each step. */
  function StepsOf(m: Machine, book: Book, ops: seq<Op>): (r: seq<Step>)
    ensures |r| == |ops|
    decreases |ops|
  {
    if ops == [] then []
    else
      var s := StepOf(m, book, ops[0]);
      [s] + StepsOf(After(m, book, ops[0]), s.book, ops[1..])
  }

  predicate RunFits(m: Machine, book: Book, ops: seq<Op>)
    decreases |ops|
  {
    ops == [] || (Fits(book, ops[0]) && RunFits(After(m, book, ops[0]), StepOf(m, book, ops[0]).book, ops[1..]))
  }

  // ---------- When the engines agree ----------

  /** A well-formed Limit order that the machine refuses for its price, or has no room for. */
  predicate Disputed(m: Machine, book: Book, op: Op) {
    op.Submit? && WellFormed(op.order) && op.order.otype.Limit?
    && (!m.Accepts(op.order) || (MatchIn(book, op.order).left != 0 && !m.HasRoom(Swept(book, op.order))))
  }

  /** A disputed order, one that is reported Resting and rests nowhere, or the cancel of such an order. */
  predicate Diverges(m: Machine, book: Book, op: Op) {
    Disputed(m, book, op)
    || (match op
        case Submit(o) => Misfiles(m, book, o)
        case CancelId(id) => IsLost(m, book, id))
  }

  lemma {:induction false} InsertGrows(q: seq<Entry>, e: Entry)
    ensures |Insert(q, e)| == |q| + 1
  {
    if q != [] && !Better(e.side, e.price, q[0].price) {
      InsertGrows(q[1..], e);
    }
  }

  /** A misfiled order parts the books: the reference has one order more. */
  lemma MisfiledIsMissing(m: Machine, book: Book, o: IncomingOrder)
    requires Misfiles(m, book, o)
    ensures Process(m, book, o).event == Process(Reference, book, o).event
    ensures Process(m, book, o).book.Size() + 1 == Process(Reference, book, o).book.Size()
  {
    InsertGrows(Swept(book, o).Queue(o.side), EntryOf(o, MatchIn(book, o).left));
    hide MatchIn, Swept, Insert;
  }

  /** A disputed order is cancelled by the machine, and filled or put to rest by the reference. */
  lemma DisputeShows(m: Machine, book: Book, op: Op)
    requires Disputed(m, book, op)
    ensures StepOf(m, book, op).event != StepOf(Reference, book, op).event
  {
    hide MatchIn, Swept;
    var fast, slow := StepOf(m, book, op).event.reports, StepOf(Reference, book, op).event.reports;
    assert fast[|fast| - 1].status == Cancelled;
    assert slow[|slow| - 1].status != Cancelled;
  }

  /**
   One step from the same book: the books and events are the same exactly if it
   does not diverge. The events alone are the same exactly if no order is
   disputed, unless a lost order is cancelled.
   */
  lemma StepsAgree(m: Machine, book: Book, op: Op)
    ensures StepOf(m, book, op) == StepOf(Reference, book, op) <==> !Diverges(m, book, op)
    ensures (op.CancelId? && IsLost(m, book, op.id))
            || (StepOf(m, book, op).event == StepOf(Reference, book, op).event <==> !Disputed(m, book, op))
  {
    match op
    case Submit(o) =>
      if Disputed(m, book, op) {
        DisputeShows(m, book, op);
      } else if Misfiles(m, book, o) {
        MisfiledIsMissing(m, book, o);
      }
      hide MatchIn, Swept;
    case CancelId(id) =>
      if IsLost(m, book, id) {
        LostCancelShows(m, book, id);
      }
  }

  /** The map of the fast engine keeps the id of a lost order that is cancelled. */
  lemma LostCancelShows(m: Machine, book: Book, id: OrderID)
    requires IsLost(m, book, id)
    ensures Cancel(m, book, id).book.ids != Cancel(Reference, book, id).book.ids
  {
    assert Cancel(m, book, id).book.ids[id] == Freed;
  }

  /** No step of the run diverges. */
  predicate Agreeable(m: Machine, book: Book, ops: seq<Op>)
    decreases |ops|
  {
    ops == [] || (!Diverges(m, book, ops[0])
                  && Agreeable(After(m, book, ops[0]), StepOf(m, book, ops[0]).book, ops[1..]))
  }

  /** No order of the run is misfiled: every order reported Resting has a level. */
  predicate NoneMisfiled(m: Machine, book: Book, ops: seq<Op>)
    decreases |ops|
  {
    ops == [] || (!(ops[0].Submit? && Misfiles(m, book, ops[0].order))
                  && NoneMisfiled(After(m, book, ops[0]), StepOf(m, book, ops[0]).book, ops[1..]))
  }

  /** Then the engine has lost nothing in the end. */
  lemma {:induction false} NoneMisfiledLosesNone(m: Machine, book: Book, ops: seq<Op>)
    requires NoneMisfiled(m, book, ops) && m.Lost() == []
    ensures RunOf(m, book, ops).machine == m
    decreases |ops|
  {
    if ops != [] {
      assert After(m, book, ops[0]) == m;
      hide StepOf, After, Misfiles;
      NoneMisfiledLosesNone(m, StepOf(m, book, ops[0]).book, ops[1..]);
    }
  }

  lemma FirstStep<T>(a: T, s: seq<T>, b: T, t: seq<T>)
    ensures [a] + s == [b] + t <==> a == b && s == t
  {
    assert ([a] + s)[0] == a && ([b] + t)[0] == b;
    assert ([a] + s)[1..] == s && ([b] + t)[1..] == t;
  }

  /** The engines have the same event and the same book at every step exactly if no step diverges. */
  lemma {:induction false} RunsAgreeIff(m: Machine, book: Book, ops: seq<Op>)
    ensures StepsOf(m, book, ops) == StepsOf(Reference, book, ops) <==> Agreeable(m, book, ops)
    ensures Agreeable(m, book, ops) ==>
              var fast, slow := RunOf(m, book, ops), RunOf(Reference, book, ops);
              fast.machine == m && fast.book == slow.book && fast.events == slow.events
    decreases |ops|
  {
    if ops != [] {
      StepsAgree(m, book, ops[0]);
      assert !Diverges(m, book, ops[0]) ==> After(m, book, ops[0]) == m;
      hide StepOf, After, Diverges;
      var s, t := StepOf(m, book, ops[0]), StepOf(Reference, book, ops[0]);
      var m' := After(m, book, ops[0]);
      ReferenceStays(book, ops[0]);
      RunsAgreeIff(m', s.book, ops[1..]);
      FirstStep(s, StepsOf(m', s.book, ops[1..]), t, StepsOf(Reference, t.book, ops[1..]));
    }
  }

  lemma ReferenceStays(book: Book, op: Op)
    ensures After(Reference, book, op) == Reference
  {
  }

  /**
   While every order reported Resting has a level, the trades and reports alone
   already tell: they are the same at every step exactly if no step diverges.
   */
  lemma {:induction false} EventsAgreeIff(m: Machine, book: Book, ops: seq<Op>)
    requires NoneMisfiled(m, book, ops) && m.Lost() == []
    ensures RunOf(m, book, ops).events == RunOf(Reference, book, ops).events <==> Agreeable(m, book, ops)
    decreases |ops|
  {
    if ops != [] {
      StepsAgree(m, book, ops[0]);
      assert After(m, book, ops[0]) == m;
      assert Diverges(m, book, ops[0]) <==> Disputed(m, book, ops[0]);
      hide StepOf, After, Misfiles, Diverges, Disputed;
      var s, t := StepOf(m, book, ops[0]), StepOf(Reference, book, ops[0]);
      ReferenceStays(book, ops[0]);
      EventsAgreeIff(m, s.book, ops[1..]);
      FirstStep(s.event, RunOf(m, s.book, ops[1..]).events, t.event, RunOf(Reference, t.book, ops[1..]).events);
    }
  }

  // ---------- A condition on the operations alone ----------

  /** Positive Limit prices, all with a level. */
  predicate PricesFit(m: Machine, ops: seq<Op>) {
    forall i :: 0 <= i < |ops| && ops[i].Submit? && ops[i].order.otype.Limit? ==>
      0 < ops[i].order.price && m.HasLevel(ops[i].order.price)
  }

  function LimitOnce(op: Op): nat {
    if op.Submit? && op.order.otype.Limit? then 1 else 0
  }

  function LimitCount(ops: seq<Op>): nat {
    if ops == [] then 0 else LimitOnce(ops[0]) + LimitCount(ops[1..])
  }

  lemma {:induction false} MatchShrinks(o: IncomingOrder, left: Quantity, q: seq<Entry>, ev: MatchEvent)
    ensures |Match(o, left, q, ev).queue| <= |q|
    decreases |q|
  {
    if !Done(o, left, q) {
      var f := Fill(o, left, q, ev);
      if |f.queue| < |q| {
        MatchShrinks(o, f.left, f.queue, f.event);
      }
    }
  }

  /** Only a Limit order makes the book larger, by one order. */
  lemma StepGrows(m: Machine, book: Book, op: Op)
    ensures StepOf(m, book, op).book.Size() <= book.Size() + LimitOnce(op)
    ensures op.Submit? ==> Swept(book, op.order).Size() <= book.Size()
  {
    hide Match, Insert;
    match op
    case Submit(o) =>
      MatchShrinks(o, o.quantity, book.Queue(o.side.Opposite()), NO_EVENT);
      InsertGrows(Swept(book, o).Queue(o.side), EntryOf(o, MatchIn(book, o).left));
    case CancelId(id) =>
  }

  /** Limit prices with a level, and no more Limit orders than there is room for: the engines agree. */
  lemma {:induction false} FittingOpsAgree(m: Machine, book: Book, ops: seq<Op>)
    requires PricesFit(m, ops) && m.Lost() == []
    requires m.Fast? ==> book.Size() + LimitCount(ops) <= m.capacity
    ensures Agreeable(m, book, ops)
    decreases |ops|
  {
    if ops != [] {
      StepGrows(m, book, ops[0]);
      assert !Diverges(m, book, ops[0]) && After(m, book, ops[0]) == m;
      hide StepOf, After, Diverges;
      FittingOpsAgree(m, StepOf(m, book, ops[0]).book, ops[1..]);
    }
  }

  lemma {:induction false} PricesFitMisfileNone(m: Machine, book: Book, ops: seq<Op>)
    requires PricesFit(m, ops) && m.Lost() == []
    ensures NoneMisfiled(m, book, ops)
    decreases |ops|
  {
    if ops != [] {
      assert After(m, book, ops[0]) == m;
      hide StepOf, After;
      PricesFitMisfileNone(m, StepOf(m, book, ops[0]).book, ops[1..]);
    }
  }

  // ---------- Inputs on which they disagree ----------

  /** A sell at price 0 is refused by the fast engine and rests in the reference. */
  lemma NonPositiveLimitDiverges(capacity: nat, levels: nat)
    ensures var o := IncomingOrder(1, Sell, Limit, 0, 5, 1);
            && Process(Fast(capacity, levels, []), EMPTY_BOOK, o).event.reports == [Report(1, Cancelled, Sell, 0, 0, 5)]
            && Process(Reference, EMPTY_BOOK, o).event.reports == [Report(1, Resting, Sell, 0, 0, 5)]
  {
  }

  /** With a single slot, the second of two buys is cancelled by the fast engine and rests in the reference. */
  lemma FullPoolDiverges(levels: nat)
    requires levels > 2
    ensures var first, second := IncomingOrder(1, Buy, Limit, 2, 5, 1), IncomingOrder(2, Buy, Limit, 1, 5, 2);
            var fast := Process(Fast(1, levels, []), EMPTY_BOOK, first);
            && fast == Process(Reference, EMPTY_BOOK, first)
            && Process(Fast(1, levels, []), fast.book, second).event.reports == [Report(2, Cancelled, Buy, 1, 0, 5)]
            && Process(Reference, fast.book, second).event.reports == [Report(2, Resting, Buy, 1, 0, 5)]
  {
  }

  /**
   A buy priced one beyond the ladder and then a market sell of the same size:
   the fast engine reports the buy Resting but trades nothing, the reference
   fills both.
   */
  lemma OutOfRangeDiverges(capacity: nat, levels: nat)
    requires capacity > 0 && levels > 0
    ensures var buy, sell := IncomingOrder(1, Buy, Limit, levels, 5, 1), IncomingOrder(2, Sell, Market, 0, 5, 2);
            var ops := [Submit(buy), Submit(sell)];
            var resting := MatchEvent([], [Report(1, Resting, Buy, levels, 0, 5)]);
            && RunOf(Fast(capacity, levels, []), EMPTY_BOOK, ops)
               == Run(Fast(capacity, levels, [StrayOf(buy, 5)]), Book([], [], map[1 := Shelf(Buy, levels)]),
                      [resting, MatchEvent([], [Report(2, Cancelled, Sell, 0, 0, 5)])])
            && RunOf(Reference, EMPTY_BOOK, ops)
               == Run(Reference, EMPTY_BOOK, [resting, MatchEvent([Trade(1, 2, levels, 5, 2)],
                    [Report(1, Filled, Buy, levels, 5, 0), Report(2, Filled, Sell, 0, 5, 0)])])
            && !Agreeable(Fast(capacity, levels, []), EMPTY_BOOK, ops)
  {
    var buy, sell := IncomingOrder(1, Buy, Limit, levels, 5, 1), IncomingOrder(2, Sell, Market, 0, 5, 2);
    var m := Fast(capacity, levels, []);
    LosesBuy(capacity, levels, buy);
    FindsNobody(capacity, levels, buy, sell);
    FillsBoth(levels, buy, sell);
    assert Diverges(m, EMPTY_BOOK, Submit(buy));
    hide StepOf, After, Diverges;
    RunOfTwo(m, EMPTY_BOOK, Submit(buy), Submit(sell));
    RunOfTwo(Reference, EMPTY_BOOK, Submit(buy), Submit(sell));
  }

  lemma LosesBuy(capacity: nat, levels: nat, buy: IncomingOrder)
    requires capacity > 0 && levels > 0 && buy == IncomingOrder(1, Buy, Limit, levels, 5, 1)
    ensures var m := Fast(capacity, levels, []);
            && StepOf(m, EMPTY_BOOK, Submit(buy))
               == Step(Book([], [], map[1 := Shelf(Buy, levels)]),
                       MatchEvent([], [Report(1, Resting, Buy, levels, 0, 5)]))
            && After(m, EMPTY_BOOK, Submit(buy)) == Fast(capacity, levels, [StrayOf(buy, 5)])
            && Misfiles(m, EMPTY_BOOK, buy)
  {
    NothingErased(EMPTY_BOOK, buy);
  }

  /** An order without a counterpart erases no id. */
  lemma NothingErased(book: Book, o: IncomingOrder)
    requires Done(o, o.quantity, book.Queue(o.side.Opposite()))
    ensures MatchIn(book, o) == Outcome(book.Queue(o.side.Opposite()), o.quantity, NO_EVENT)
    ensures Swept(book, o) == book
  {
    assert ReportedIds([]) == {};
    assert book.ids - {} == book.ids;
  }

  lemma FindsNobody(capacity: nat, levels: nat, buy: IncomingOrder, sell: IncomingOrder)
    requires sell == IncomingOrder(2, Sell, Market, 0, 5, 2)
    ensures var m := Fast(capacity, levels, [StrayOf(buy, 5)]);
            var book := Book([], [], map[1 := Shelf(Buy, levels)]);
            && StepOf(m, book, Submit(sell)) == Step(book, MatchEvent([], [Report(2, Cancelled, Sell, 0, 0, 5)]))
            && After(m, book, Submit(sell)) == m
  {
    NothingErased(Book([], [], map[1 := Shelf(Buy, levels)]), sell);
  }

  lemma FillsBoth(levels: nat, buy: IncomingOrder, sell: IncomingOrder)
    requires levels > 0
    requires buy == IncomingOrder(1, Buy, Limit, levels, 5, 1) && sell == IncomingOrder(2, Sell, Market, 0, 5, 2)
    ensures var rested := Book([EntryOf(buy, 5)], [], map[1 := Shelf(Buy, levels)]);
            && StepOf(Reference, EMPTY_BOOK, Submit(buy))
               == Step(rested, MatchEvent([], [Report(1, Resting, Buy, levels, 0, 5)]))
            && StepOf(Reference, rested, Submit(sell))
               == Step(EMPTY_BOOK, MatchEvent([Trade(1, 2, levels, 5, 2)],
                    [Report(1, Filled, Buy, levels, 5, 0), Report(2, Filled, Sell, 0, 5, 0)]))
            && After(Reference, EMPTY_BOOK, Submit(buy)) == After(Reference, rested, Submit(sell)) == Reference
  {
    var rested := Book([EntryOf(buy, 5)], [], map[1 := Shelf(Buy, levels)]);
    NothingErased(EMPTY_BOOK, buy);
    var filled := Report(1, Filled, Buy, levels, 5, 0);
    var all := Outcome([], 0, MatchEvent([Trade(1, 2, levels, 5, 2)], [filled]));
    assert Fill(sell, 5, rested.bids, NO_EVENT) == all;
    assert MatchIn(rested, sell) == Match(sell, 0, [], all.event) == all;
    assert filled in [filled];
    assert rested.ids - ReportedIds([filled]) == map[];
  }

  lemma RunOfTwo(m: Machine, book: Book, a: Op, b: Op)
    ensures var s, m' := StepOf(m, book, a), After(m, book, a);
            var t := StepOf(m', s.book, b);
            RunOf(m, book, [a, b]) == Run(After(m', s.book, b), t.book, [s.event, t.event])
  {
    hide StepOf, After;
    var s, m' := StepOf(m, book, a), After(m, book, a);
    assert [a, b][1..] == [b] && [b][1..] == [];
    assert RunOf(m', s.book, [b]).events == [StepOf(m', s.book, b).event];
  }

  // ---------- What every reachable book keeps ----------

  lemma StepKeepsInv(m: Machine, book: Book, op: Op)
    requires Inv(book)
    ensures Inv(StepOf(m, book, op).book)
  {
    match op
    case Submit(o) => ProcessKeepsInv(m, book, o);
    case CancelId(id) => CancelKeepsInv(m, book, id);
  }

  /** In every reachable state the queues are sound and sorted and the book is uncrossed, whatever the ids. */
  lemma {:induction false} RunKeepsInv(m: Machine, book: Book, ops: seq<Op>)
    requires Inv(book)
    ensures Inv(RunOf(m, book, ops).book)
    decreases |ops|
  {
    if ops != [] {
      StepKeepsInv(m, book, ops[0]);
      hide StepOf, After, Inv;
      RunKeepsInv(After(m, book, ops[0]), StepOf(m, book, ops[0]).book, ops[1..]);
    }
  }

  /** No order of the run comes to rest under the id of a resting one. */
  ghost predicate NeverReuses(m: Machine, book: Book, ops: seq<Op>)
    decreases |ops|
  {
    ops == [] || ((ops[0].Submit? ==> HasFreshId(m, book, ops[0].order))
                  && NeverReuses(After(m, book, ops[0]), StepOf(m, book, ops[0]).book, ops[1..]))
  }

  /** Then ids stay distinct, and each cancels the order that has it. */
  lemma {:induction false} RunKeepsUnique(m: Machine, book: Book, ops: seq<Op>)
    requires Inv(book) && Unique(m, book) && NeverReuses(m, book, ops)
    ensures Unique(RunOf(m, book, ops).machine, RunOf(m, book, ops).book)
    decreases |ops|
  {
    if ops != [] {
      StepKeepsInv(m, book, ops[0]);
      StepKeepsUnique(m, book, ops[0]);
      hide StepOf, After, Inv, Unique, HasFreshId;
      RunKeepsUnique(After(m, book, ops[0]), StepOf(m, book, ops[0]).book, ops[1..]);
    }
  }

  lemma StepKeepsUnique(m: Machine, book: Book, op: Op)
    requires Inv(book) && Unique(m, book) && (op.Submit? ==> HasFreshId(m, book, op.order))
    ensures Unique(After(m, book, op), StepOf(m, book, op).book)
  {
    match op
    case Submit(o) => ProcessKeepsUnique(m, book, o);
    case CancelId(id) => CancelKeepsUnique(m, book, id);
  }

  // ---------- What the id map names ----------

  ghost predicate Holds(q: seq<Entry>, id: OrderID, price: Price) {
    exists i :: 0 <= i < |q| && Matches(q[i], id, price)
  }

  /** The id is freed, or names an order on its side or a lost one. */
  ghost predicate Names(m: Machine, book: Book, id: OrderID)
    requires id in book.ids
  {
    match book.ids[id]
    case Freed => true
    case Shelf(side, price) => Holds(if m.HasLevel(price) then book.Queue(side) else m.Lost(), id, price)
  }

  /** Every mapped id names an order, whether or not ids are reused. */
  ghost predicate AllNamed(m: Machine, book: Book) {
    forall id :: id in book.ids ==> Names(m, book, id)
  }

  lemma ReportedIsErased(book: Book, o: IncomingOrder, n: nat, i: nat)
    requires var q := book.Queue(o.side.Opposite()); Sweeps(q, MatchIn(book, o), n) && i < n
    ensures book.Queue(o.side.Opposite())[i].id !in Swept(book, o).ids
  {
    hide Match;
    assert MatchIn(book, o).event.reports[i] == FilledReport(book.Queue(o.side.Opposite())[i]);
  }

  /** An order that is not swept away stays in its place, and the ids of those that are leave the map. */
  lemma SweptHolds(book: Book, o: IncomingOrder, side: Side, id: OrderID, price: Price)
    requires id in Swept(book, o).ids && Holds(book.Queue(side), id, price)
    ensures id in book.ids && Swept(book, o).ids[id] == book.ids[id]
    ensures Holds(Swept(book, o).Queue(side), id, price)
  {
    var opposite := o.side.Opposite();
    if side == opposite {
      var q, r := book.Queue(side), MatchIn(book, o);
      var n := MatchSweeps(o, o.quantity, q);
      var i :| 0 <= i < |q| && Matches(q[i], id, price);
      hide Match;
      assert i >= n by {
        if i < n {
          ReportedIsErased(book, o, n, i);
        }
      }
      assert SameOrder(r.queue[i - n], q[i]);
    }
  }

  lemma SweptKeepsNamed(m: Machine, book: Book, o: IncomingOrder)
    requires AllNamed(m, book)
    ensures AllNamed(m, Swept(book, o))
  {
    forall id | id in Swept(book, o).ids
      ensures Names(m, Swept(book, o), id)
    {
      assert id in book.ids && Names(m, book, id);
      match book.ids[id]
      case Freed =>
      case Shelf(side, price) =>
        if m.HasLevel(price) {
          SweptHolds(book, o, side, id, price);
        }
    }
  }

  lemma InsertHolds(q: seq<Entry>, e: Entry, id: OrderID, price: Price)
    requires Sorted(e.side, q)
    ensures Holds(q, id, price) || Matches(e, id, price) ==> Holds(Insert(q, e), id, price)
  {
    var k := InsertPlace(q, e);
    var r := InsertAt(q, k, e);
    if Holds(q, id, price) {
      var i :| 0 <= i < |q| && Matches(q[i], id, price);
      assert r[if i < k then i else i + 1] == q[i];
    }
    assert r[k] == e;
  }

  lemma SnocHolds(q: seq<Entry>, e: Entry, id: OrderID, price: Price)
    ensures Holds(q, id, price) || Matches(e, id, price) ==> Holds(q + [e], id, price)
  {
    if Holds(q, id, price) {
      var i :| 0 <= i < |q| && Matches(q[i], id, price);
      assert (q + [e])[i] == q[i];
    }
    assert (q + [e])[|q|] == e;
  }

  lemma RemoveHolds(q: seq<Entry>, k: nat, id: OrderID, price: Price)
    requires k < |q| && Holds(q, id, price) && q[k].id != id
    ensures Holds(RemoveAt(q, k), id, price)
  {
    var i :| 0 <= i < |q| && Matches(q[i], id, price);
    assert RemoveAt(q, k)[if i < k then i else i - 1] == q[i];
  }

  lemma RestKeepsNamed(m: Machine, book: Book, o: IncomingOrder, left: Quantity)
    requires AllNamed(m, book) && m.HasLevel(o.price) && Sorted(o.side, book.Queue(o.side))
    ensures AllNamed(m, Rest(book, o, left))
  {
    var e := EntryOf(o, left);
    var r := Rest(book, o, left);
    forall id | id in r.ids
      ensures Names(m, r, id)
    {
      InsertHolds(book.Queue(o.side), e, id, if r.ids[id].Shelf? then r.ids[id].price else 0);
      hide Insert, Holds;
      assert id != o.id ==> Names(m, book, id);
    }
  }

  lemma MisfileKeepsNamed(m: Machine, book: Book, o: IncomingOrder, e: Entry)
    requires AllNamed(m, book) && !m.HasLevel(o.price) && Matches(e, o.id, o.price)
    ensures AllNamed(m.(lost := m.lost + [e]), Mapped(book, o))
  {
    var r := Mapped(book, o);
    forall id | id in r.ids
      ensures Names(m.(lost := m.lost + [e]), r, id)
    {
      SnocHolds(m.lost, e, id, if r.ids[id].Shelf? then r.ids[id].price else 0);
      hide Holds;
      assert id != o.id ==> Names(m, book, id);
    }
  }

  lemma CancelKeepsNamed(m: Machine, book: Book, id: OrderID)
    requires AllNamed(m, book)
    ensures AllNamed(Released(m, book, id), Cancel(m, book, id).book)
  {
    var m', r := Released(m, book, id), Cancel(m, book, id).book;
    forall x | x in r.ids
      ensures Names(m', r, x)
    {
      assert x in book.ids && Names(m, book, x);
      if x != id && book.ids[x].Shelf? && book.ids != r.ids {
        var p := book.ids[x];
        if IsLost(m, book, id) {
          if !m.HasLevel(p.price) {
            RemoveHolds(m.lost, LostPlace(m, book, id), x, p.price);
          }
        } else {
          var at := book.ids[id];
          if m.HasLevel(p.price) && p.side == at.side {
            RemoveHolds(book.Queue(p.side), FindLast(book.Queue(at.side), id, at.price), x, p.price);
          }
        }
      }
    }
  }

  lemma ProcessKeepsNamed(m: Machine, book: Book, o: IncomingOrder)
    requires Inv(book) && AllNamed(m, book)
    ensures AllNamed(Next(m, book, o), Process(m, book, o).book)
  {
    if m.Accepts(o) {
      SweptIsDone(book, o);
      SweptKeepsNamed(m, book, o);
      if Misfiles(m, book, o) {
        MisfileKeepsNamed(m, Swept(book, o), o, StrayOf(o, MatchIn(book, o).left));
      } else if Rests(m, book, o) {
        RestKeepsNamed(m, Swept(book, o), o, MatchIn(book, o).left);
      }
    }
    hide AllNamed, MatchIn, Swept, Insert;
  }

  lemma StepKeepsNamed(m: Machine, book: Book, op: Op)
    requires Inv(book) && AllNamed(m, book)
    ensures AllNamed(After(m, book, op), StepOf(m, book, op).book)
  {
    match op
    case Submit(o) => ProcessKeepsNamed(m, book, o);
    case CancelId(id) => CancelKeepsNamed(m, book, id);
  }

  /** After every run each mapped id names an order, reused or not, lost or not. */
  lemma {:induction false} RunKeepsNamed(m: Machine, book: Book, ops: seq<Op>)
    requires Inv(book) && AllNamed(m, book)
    ensures AllNamed(RunOf(m, book, ops).machine, RunOf(m, book, ops).book)
    decreases |ops|
  {
    if ops != [] {
      StepKeepsInv(m, book, ops[0]);
      StepKeepsNamed(m, book, ops[0]);
      hide StepOf, After, Inv, AllNamed;
      RunKeepsNamed(After(m, book, ops[0]), StepOf(m, book, ops[0]).book, ops[1..]);
    }
  }

  /** So a cancel reports exactly one order, with that id, or the id is not mapped. */
  lemma CancelAnswers(m: Machine, book: Book, id: OrderID)
    requires AllNamed(m, book) && Cancellable(book, id)
    ensures var ev := Cancel(m, book, id).event;
            if id !in book.ids then ev == NO_EVENT
            else
              && ev.trades == [] && |ev.reports| == 1
              && ev.reports[0].orderId == id && ev.reports[0].status == Cancelled
  {
    assert id in book.ids ==> Names(m, book, id);
  }

  // ---------- What a reused id does ----------

  function Bid(id: OrderID, price: Price): Op {
    Submit(IncomingOrder(id, Buy, Limit, price, 5, 1))
  }

  function BidEntry(id: OrderID, price: Price): Entry {
    Entry(id, Buy, Limit, price, 5, 5, 1, Resting)
  }

  lemma BidRests(m: Machine, book: Book, id: OrderID, price: Price)
    requires id > 0 && 0 < price && m.HasLevel(price) && book.asks == [] && m.HasRoom(book)
    ensures StepOf(m, book, Bid(id, price))
            == Step(Book(BookSpec.Insert(book.bids, BidEntry(id, price)), [], book.ids[id := Shelf(Buy, price)]),
                    MatchEvent([], [Report(id, Resting, Buy, price, 0, 5)]))
    ensures After(m, book, Bid(id, price)) == m && !Diverges(m, book, Bid(id, price))
  {
    NothingErased(book, Bid(id, price).order);
    hide Match, Swept;
  }

  /**
   Two bids under one id, the better one first, and two cancels of that id: the
   first cancel takes the later bid, the second finds nothing, and the earlier
   bid can never be cancelled again.
   */
  lemma ReusedIdStrands(m: Machine)
    requires m.HasLevel(20) && (m.Fast? ==> m.capacity >= 2 && m.lost == [])
    ensures RunOf(m, EMPTY_BOOK, [Bid(1, 20), Bid(1, 10), CancelId(1), CancelId(1)])
            == Run(m, Book([BidEntry(1, 20)], [], map[]),
                   [MatchEvent([], [Report(1, Resting, Buy, 20, 0, 5)]),
                    MatchEvent([], [Report(1, Resting, Buy, 10, 0, 5)]),
                    MatchEvent([], [Report(1, Cancelled, Buy, 10, 0, 5)]), NO_EVENT])
  {
    var one := Book([BidEntry(1, 20)], [], map[1 := Shelf(Buy, 20)]);
    var two := Book([BidEntry(1, 20), BidEntry(1, 10)], [], map[1 := Shelf(Buy, 10)]);
    var last := Book([BidEntry(1, 20)], [], map[]);
    assert BookSpec.Insert(one.bids, BidEntry(1, 10)) == two.bids;
    BidRests(m, EMPTY_BOOK, 1, 20);
    BidRests(m, one, 1, 10);
    LaterBidCancelled(m);
    hide StepOf, After;
    RunOfFour(m, EMPTY_BOOK, Bid(1, 20), Bid(1, 10), CancelId(1), CancelId(1), one, two, last, last);
  }

  /** Four steps that leave the engine's kind as it is. */
  lemma RunOfFour(m: Machine, book: Book, a: Op, b: Op, c: Op, d: Op, b1: Book, b2: Book, b3: Book, b4: Book)
    requires StepOf(m, book, a).book == b1 && StepOf(m, b1, b).book == b2
    requires StepOf(m, b2, c).book == b3 && StepOf(m, b3, d).book == b4
    requires After(m, book, a) == After(m, b1, b) == After(m, b2, c) == After(m, b3, d) == m
    ensures RunOf(m, book, [a, b, c, d])
            == Run(m, b4, [StepOf(m, book, a).event, StepOf(m, b1, b).event, StepOf(m, b2, c).event,
                           StepOf(m, b3, d).event])
  {
    hide StepOf, After;
    assert [a, b, c, d][1..] == [b, c, d] && [b, c, d][1..] == [c, d];
    RunOfTwo(m, b2, c, d);
    assert RunOf(m, b1, [b, c, d]).events == [StepOf(m, b1, b).event] + RunOf(m, b2, [c, d]).events;
  }

  lemma LaterBidCancelled(m: Machine)
    requires m.HasLevel(20)
    ensures var two := Book([BidEntry(1, 20), BidEntry(1, 10)], [], map[1 := Shelf(Buy, 10)]);
            var last := Book([BidEntry(1, 20)], [], map[]);
            && StepOf(m, two, CancelId(1)) == Step(last, MatchEvent([], [Report(1, Cancelled, Buy, 10, 0, 5)]))
            && StepOf(m, last, CancelId(1)) == Step(last, NO_EVENT)
            && After(m, two, CancelId(1)) == After(m, last, CancelId(1)) == m
  {
    var two := Book([BidEntry(1, 20), BidEntry(1, 10)], [], map[1 := Shelf(Buy, 10)]);
    assert RemoveAt(two.bids, 1) == [BidEntry(1, 20)];
    assert two.ids - {1} == map[];
  }

  lemma {:induction false} AgreeableRest(m: Machine, book: Book, a: seq<Op>, b: seq<Op>)
    requires Agreeable(m, book, a + b)
    ensures Agreeable(RunOf(m, book, a).machine, RunOf(m, book, a).book, b)
    decreases |a|
  {
    if a == [] {
      assert a + b == b;
    } else {
      hide StepOf, After, Diverges;
      assert (a + b)[1..] == a[1..] + b;
      AgreeableRest(After(m, book, a[0]), StepOf(m, book, a[0]).book, a[1..], b);
    }
  }

  /** In a pool of two, the stranded bid still takes one slot: the second of two more bids diverges. */
  lemma ReusedIdDiverges(levels: nat)
    requires levels > 20
    ensures !Agreeable(Fast(2, levels, []), EMPTY_BOOK,
                       [Bid(1, 20), Bid(1, 10), CancelId(1), CancelId(1)] + [Bid(2, 5), Bid(3, 4)])
  {
    var m := Fast(2, levels, []);
    var stranded := Book([BidEntry(1, 20)], [], map[]);
    ReusedIdStrands(m);
    SecondBidDiverges(m, stranded);
    hide RunOf;
    if Agreeable(m, EMPTY_BOOK, [Bid(1, 20), Bid(1, 10), CancelId(1), CancelId(1)] + [Bid(2, 5), Bid(3, 4)]) {
      AgreeableRest(m, EMPTY_BOOK, [Bid(1, 20), Bid(1, 10), CancelId(1), CancelId(1)], [Bid(2, 5), Bid(3, 4)]);
    }
  }

  lemma SecondBidDiverges(m: Machine, book: Book)
    requires m.Fast? && m.lost == [] && m.levels > 20 && m.capacity == 2 && |book.bids| == 1 && book.asks == []
    ensures !Agreeable(m, book, [Bid(2, 5), Bid(3, 4)])
  {
    BidRests(m, book, 2, 5);
    var full := StepOf(m, book, Bid(2, 5)).book;
    InsertGrows(book.bids, BidEntry(2, 5));
    NothingErased(full, Bid(3, 4).order);
    assert Disputed(m, full, Bid(3, 4));
    hide StepOf, After;
    assert [Bid(2, 5), Bid(3, 4)][1..] == [Bid(3, 4)];
  }

  // ---------- Distinct ids never clash ----------

  /** No id is submitted twice, and none of the seen ones. */
  predicate FreshIds(ops: seq<Op>, seen: set<OrderID>) {
    ops == [] || (if ops[0].Submit?
                  then ops[0].order.id !in seen && FreshIds(ops[1..], seen + {ops[0].order.id})
                  else FreshIds(ops[1..], seen))
  }

  ghost predicate AllSeen(book: Book, seen: set<OrderID>) {
    forall id :: IsResting(book, id) ==> id in seen
  }

  lemma {:induction false} MatchAddsNoId(o: IncomingOrder, left: Quantity, q: seq<Entry>, ev: MatchEvent, id: OrderID)
    requires HasId(Match(o, left, q, ev).queue, id)
    ensures HasId(q, id)
    decreases |q|
  {
    if !Done(o, left, q) {
      var f := Fill(o, left, q, ev);
      if |f.queue| < |q| {
        MatchAddsNoId(o, f.left, f.queue, f.event, id);
        var i :| 0 <= i < |f.queue| && f.queue[i].id == id;
        assert q[i + 1].id == id;
      } else {
        var i :| 0 <= i < |f.queue| && f.queue[i].id == id;
        assert q[i].id == id;
      }
    }
  }

  lemma {:induction false} InsertAddsOneId(q: seq<Entry>, e: Entry, id: OrderID)
    requires HasId(Insert(q, e), id)
    ensures HasId(q, id) || id == e.id
  {
    var r := Insert(q, e);
    var i :| 0 <= i < |r| && r[i].id == id;
    if q == [] || Better(e.side, e.price, q[0].price) {
      assert i > 0 ==> r[i] == q[i - 1];
    } else if i == 0 {
      assert q[0].id == id;
    } else {
      assert Insert(q[1..], e)[i - 1] == r[i];
      InsertAddsOneId(q[1..], e, id);
      if HasId(q[1..], id) {
        var k :| 0 <= k < |q[1..]| && q[1..][k].id == id;
        assert q[k + 1].id == id;
      }
    }
  }

  lemma SweptAddsNoId(book: Book, o: IncomingOrder, id: OrderID)
    requires IsResting(Swept(book, o), id)
    ensures IsResting(book, id)
  {
    hide Match, HasId;
    var side := o.side.Opposite();
    if HasId(MatchIn(book, o).queue, id) {
      MatchAddsNoId(o, o.quantity, book.Queue(side), NO_EVENT, id);
    }
  }

  lemma SettleAddsOneId(book: Book, o: IncomingOrder, room: bool, id: OrderID)
    requires IsResting(Settle(book, o, room).book, id)
    ensures IsResting(book, id) || id == o.id
  {
    hide MatchIn, Swept, HasId, BookSpec.Insert;
    var q := Swept(book, o).Queue(o.side);
    var e := EntryOf(o, MatchIn(book, o).left);
    if IsResting(Swept(book, o), id) {
      SweptAddsNoId(book, o, id);
    } else if HasId(Insert(q, e), id) {
      InsertAddsOneId(q, e, id);
    }
  }

  lemma CancelAddsNoId(m: Machine, book: Book, target: OrderID, id: OrderID)
    requires IsResting(Cancel(m, book, target).book, id)
    ensures IsResting(book, id)
  {
  }

  function SeenOnce(op: Op, seen: set<OrderID>): set<OrderID> {
    if op.Submit? then seen + {op.order.id} else seen
  }

  /** A submitted id that was never seen cannot clash. */
  lemma StepSees(m: Machine, book: Book, op: Op, seen: set<OrderID>)
    requires AllSeen(book, seen) && (op.Submit? ==> op.order.id !in seen)
    ensures op.Submit? ==> !IsResting(Swept(book, op.order), op.order.id)
    ensures AllSeen(StepOf(m, book, op).book, SeenOnce(op, seen))
  {
    hide Settle, Cancel, Swept, IsResting;
    if op.Submit? && IsResting(Swept(book, op.order), op.order.id) {
      SweptAddsNoId(book, op.order, op.order.id);
    }
    forall id | IsResting(StepOf(m, book, op).book, id)
      ensures id in SeenOnce(op, seen)
    {
      match op
      case Submit(o) => ProcessAddsOneId(m, book, o, id);
      case CancelId(target) => CancelAddsNoId(m, book, target, id);
    }
  }

  lemma ProcessAddsOneId(m: Machine, book: Book, o: IncomingOrder, id: OrderID)
    requires IsResting(Process(m, book, o).book, id)
    ensures IsResting(book, id) || id == o.id
  {
    hide Settle, Swept, HasId;
    if Misfiles(m, book, o) {
      SweptAddsNoId(book, o, id);
    } else if m.Accepts(o) {
      SettleAddsOneId(book, o, m.HasRoom(Swept(book, o)), id);
    }
  }

  /** Submitting no id twice is enough for no order to take the id of a resting one. */
  lemma {:induction false} FreshIdsNeverReuse(m: Machine, book: Book, ops: seq<Op>, seen: set<OrderID>)
    requires AllSeen(book, seen) && FreshIds(ops, seen)
    ensures NeverReuses(m, book, ops)
    decreases |ops|
  {
    if ops != [] {
      StepSees(m, book, ops[0], seen);
      assert ops[0].Submit? ==> HasFreshId(m, book, ops[0].order);
      hide AllSeen, StepOf, After, HasFreshId;
      FreshIdsNeverReuse(After(m, book, ops[0]), StepOf(m, book, ops[0]).book, ops[1..], SeenOnce(ops[0], seen));
    }
  }

  // ---------- When every step is specified ----------

  /** Every mapped id names an order on a level: what the check of the fast engine looks for. */
  predicate AllShelved(m: Machine, book: Book) {
    forall id :: id in book.ids ==> book.ids[id].Shelf? && m.HasLevel(book.ids[id].price)
  }

  /** The map names only orders on levels until an order is misfiled, and exactly then it does not. */
  lemma StepKeepsShelved(m: Machine, book: Book, op: Op)
    requires AllShelved(m, book)
    ensures AllShelved(After(m, book, op), StepOf(m, book, op).book) <==> !(op.Submit? && Misfiles(m, book, op.order))
  {
    match op
    case Submit(o) =>
      if Misfiles(m, book, o) {
        assert o.id in Process(m, book, o).book.ids;
      }
      hide MatchIn;
    case CancelId(id) =>
  }

  /** A run in which no order is misfiled never cancels the id of a lost one twice. */
  lemma {:induction false} NoneMisfiledFits(m: Machine, book: Book, ops: seq<Op>)
    requires AllShelved(m, book) && NoneMisfiled(m, book, ops)
    ensures RunFits(m, book, ops)
    decreases |ops|
  {
    if ops != [] {
      StepKeepsShelved(m, book, ops[0]);
      assert Fits(book, ops[0]);
      hide StepOf, After, Misfiles, AllShelved, Fits;
      NoneMisfiledFits(After(m, book, ops[0]), StepOf(m, book, ops[0]).book, ops[1..]);
    }
  }

  /** The reference has a level for every price. */
  lemma {:induction false} ReferenceMisfilesNone(book: Book, ops: seq<Op>)
    ensures NoneMisfiled(Reference, book, ops)
    decreases |ops|
  {
    if ops != [] {
      ReferenceStays(book, ops[0]);
      hide StepOf, After;
      ReferenceMisfilesNone(StepOf(Reference, book, ops[0]).book, ops[1..]);
    }
  }

  lemma ReferenceFits(ops: seq<Op>)
    ensures RunFits(Reference, EMPTY_BOOK, ops)
  {
    ReferenceMisfilesNone(EMPTY_BOOK, ops);
    NoneMisfiledFits(Reference, EMPTY_BOOK, ops);
  }

  /** Limit prices with a level: then every step of either engine is specified, and no order is lost. */
  lemma PricesFitRun(m: Machine, ops: seq<Op>)
    requires PricesFit(m, ops) && m.Lost() == []
    ensures RunFits(m, EMPTY_BOOK, ops) && RunOf(m, EMPTY_BOOK, ops).machine == m
  {
    PricesFitMisfileNone(m, EMPTY_BOOK, ops);
    NoneMisfiledFits(m, EMPTY_BOOK, ops);
    NoneMisfiledLosesNone(m, EMPTY_BOOK, ops);
  }
}
