/**
 What matching means: maximal execution, greedy fills in price-time priority,
 and additivity in the quantity.
 */
module MatchingLaws {
  import opened Types
  import opened BookSpec

  function Prepend(ev: MatchEvent, m: Outcome): Outcome {
    m.(event := MatchEvent(ev.trades + m.event.trades, ev.reports + m.event.reports))
  }

  /** The event so far is only ever extended. */
  lemma {:induction false} MatchExtends(o: IncomingOrder, left: Quantity, q: seq<Entry>, ev: MatchEvent)
    ensures Match(o, left, q, ev) == Prepend(ev, Match(o, left, q, NO_EVENT))
    decreases |q|
  {
    if !Done(o, left, q) {
      var f := Fill(o, left, q, ev);
      var g := Fill(o, left, q, NO_EVENT);
      if |f.queue| < |q| {
        MatchExtends(o, f.left, f.queue, f.event);
        MatchExtends(o, f.left, f.queue, g.event);
      }
    }
  }

  function MatchOf(o: IncomingOrder, left: Quantity, q: seq<Entry>): Outcome {
    Match(o, left, q, NO_EVENT)
  }

  /** Matching an order that is at least as large as the front order. */
  lemma MatchPops(o: IncomingOrder, left: Quantity, q: seq<Entry>)
    requires !Done(o, left, q) && left >= q[0].remaining
    ensures var m := MatchOf(o, left - q[0].remaining, q[1..]);
            MatchOf(o, left, q) == Outcome(m.queue, m.left,
              MatchEvent([TradeWith(o, q[0], q[0].remaining)] + m.event.trades, [FilledReport(q[0])] + m.event.reports))
  {
    MatchExtends(o, left - q[0].remaining, q[1..], Fill(o, left, q, NO_EVENT).event);
  }

  /** Matching an order that is smaller than the front order. */
  lemma MatchReduces(o: IncomingOrder, left: Quantity, q: seq<Entry>)
    requires !Done(o, left, q) && left < q[0].remaining
    ensures MatchOf(o, left, q)
            == Outcome([Reduced(q[0], left)] + q[1..], 0, MatchEvent([TradeWith(o, q[0], left)], []))
  {
  }

  ghost predicate Positive(q: seq<Entry>) {
    forall i :: 0 <= i < |q| ==> q[i].remaining > 0
  }

  // ---------- Maximal execution ----------

  /**
   What the resting orders have left at the prices an incoming order may trade at:
   any price for a Market order, none above the limit of a buy, none below that of
   a sell.
   */
  function Acceptable(o: IncomingOrder, q: seq<Entry>): Quantity {
    if q == [] then 0
    else
      var atFront := if o.otype == Market || (o.side == Buy && q[0].price <= o.price)
                        || (o.side == Sell && q[0].price >= o.price)
                     then q[0].remaining else 0;
      atFront + Acceptable(o, q[1..])
  }

  lemma {:induction false} NothingAcceptable(o: IncomingOrder, q: seq<Entry>)
    requires Sorted(o.side.Opposite(), q) && q != [] && !Crosses(o, q[0].price)
    ensures Acceptable(o, q) == 0
  {
    if |q| > 1 {
      NothingAcceptable(o, q[1..]);
    }
  }

  lemma {:induction false} AcceptableIsNonnegative(o: IncomingOrder, q: seq<Entry>)
    requires Positive(q)
    ensures Acceptable(o, q) >= 0
  {
    if q != [] {
      AcceptableIsNonnegative(o, q[1..]);
    }
  }

  /** An order fills as much as it wants, or everything it accepts, and the queue loses exactly that. */
  lemma {:induction false} MaximalExecution(o: IncomingOrder, left: Quantity, q: seq<Entry>)
    requires left >= 0 && Positive(q) && Sorted(o.side.Opposite(), q)
    ensures var m := MatchOf(o, left, q);
            && left - m.left == Min(left, Acceptable(o, q))
            && Total(m.queue) == Total(q) - (left - m.left)
  {
    AcceptableIsNonnegative(o, q);
    if Done(o, left, q) {
      if q != [] && !Crosses(o, q[0].price) {
        NothingAcceptable(o, q);
      }
    } else {
      AcceptableIsNonnegative(o, q[1..]);
      if left >= q[0].remaining {
        MatchPops(o, left, q);
        MaximalExecution(o, left - q[0].remaining, q[1..]);
      } else {
        MatchReduces(o, left, q);
        assert ([Reduced(q[0], left)] + q[1..])[1..] == q[1..];
      }
    }
  }

  lemma {:induction false} InsertAddsTotal(q: seq<Entry>, e: Entry)
    ensures Total(Insert(q, e)) == Total(q) + e.remaining
  {
    if q == [] || Better(e.side, e.price, q[0].price) {
      assert ([e] + q)[1..] == q;
    } else {
      InsertAddsTotal(q[1..], e);
      assert ([q[0]] + Insert(q[1..], e))[1..] == Insert(q[1..], e);
    }
  }

  /** The report that an order itself gets, always the last one. */
  function OwnVerdict(s: Step): Report
    requires s.event.reports != []
  {
    s.event.reports[|s.event.reports| - 1]
  }

  /**
   The last report of an accepted order: it fills the most that its limit and
   the opposite side allow, exactly that leaves the opposite side, and only a
   Limit order that finds room is reported Resting. It does rest, with all that
   remains, exactly if its price has a level.
   */
  lemma VerdictIsExact(m: Machine, book: Book, o: IncomingOrder)
    requires Inv(book) && o.quantity > 0 && o.id != 0 && (m.Fast? && o.otype == Limit ==> o.price > 0)
    ensures var s := Process(m, book, o);
            var opposite := book.Queue(o.side.Opposite());
            var filled := Min(o.quantity, Acceptable(o, opposite));
            var room := m.Fast? ==> Swept(book, o).Size() + |m.lost| < m.capacity;
            && s.event.reports != []
            && var r := OwnVerdict(s);
            && r.orderId == o.id && r.side == o.side && r.price == o.price
            && r.filledQuantity == filled && r.remainingQuantity == o.quantity - filled
            && (r.status == Filled <==> filled == o.quantity)
            && (r.status == Resting <==> filled < o.quantity && o.otype.Limit? && room)
            && (r.status == Cancelled <==> filled < o.quantity && !(o.otype.Limit? && room))
            && Total(s.book.Queue(o.side.Opposite())) == Total(opposite) - filled
            && Total(s.book.Queue(o.side))
               == Total(book.Queue(o.side))
                  + if r.status == Resting && (m.Fast? ==> o.price < m.levels) then r.remainingQuantity else 0
  {
    var q := book.Queue(o.side.Opposite());
    assert Positive(q) && Sorted(o.side.Opposite(), q);
    MaximalExecution(o, o.quantity, q);
    InsertAddsTotal(book.Queue(o.side), EntryOf(o, MatchIn(book, o).left));
    hide Match, Insert, Total, Acceptable, Inv;
  }

  lemma {:induction false} MatchIgnoresType(o: IncomingOrder, u: IncomingOrder, left: Quantity, q: seq<Entry>,
                                            ev: MatchEvent)
    requires !o.otype.Market? && !u.otype.Market? && u == o.(otype := u.otype)
    ensures Match(o, left, q, ev) == Match(u, left, q, ev)
    decreases |q|
  {
    if !Done(o, left, q) {
      var f := Fill(o, left, q, ev);
      if |f.queue| < |q| {
        MatchIgnoresType(o, u, f.left, f.queue, f.event);
      }
    }
  }

  /** Fill-or-kill is immediate-or-cancel in both engines. */
  lemma FokIsIoc(m: Machine, book: Book, o: IncomingOrder)
    ensures Process(m, book, o.(otype := FOK)) == Process(m, book, o.(otype := IOC))
  {
    hide Match;
    MatchIgnoresType(o.(otype := FOK), o.(otype := IOC), o.quantity, book.Queue(o.side.Opposite()), NO_EVENT);
  }

  /**
   So a fill-or-kill order is filled or killed exactly if the opposite side
   offers nothing that it accepts, or enough of it.
   */
  lemma FokIsAllOrNothingIff(m: Machine, book: Book, o: IncomingOrder)
    requires Inv(book) && o.quantity > 0 && o.id != 0 && o.otype == FOK
    ensures Process(m, book, o).event.reports != []
    ensures var filled := OwnVerdict(Process(m, book, o)).filledQuantity;
            var offered := Acceptable(o, book.Queue(o.side.Opposite()));
            filled == 0 || filled == o.quantity <==> offered == 0 || offered >= o.quantity
  {
    VerdictIsExact(m, book, o);
    AcceptableIsNonnegative(o, book.Queue(o.side.Opposite()));
    hide Process, Acceptable;
  }

  /** A fill-or-kill buy of 8 against an ask of 5: it takes the 5 and is cancelled for the other 3. */
  lemma FokFillsInPart(m: Machine)
    ensures var book := Book([], [Entry(1, Sell, Limit, 10, 5, 5, 1, Resting)], map[1 := Shelf(Sell, 10)]);
            && Inv(book)
            && Process(m, book, IncomingOrder(2, Buy, FOK, 10, 8, 2))
               == Step(EMPTY_BOOK, MatchEvent([Trade(2, 1, 10, 5, 2)],
                    [Report(1, Filled, Sell, 10, 5, 0), Report(2, Cancelled, Buy, 10, 5, 3)]))
  {
    var ask := Entry(1, Sell, Limit, 10, 5, 5, 1, Resting);
    var o := IncomingOrder(2, Buy, FOK, 10, 8, 2);
    var r := Report(1, Filled, Sell, 10, 5, 0);
    assert Fill(o, 8, [ask], NO_EVENT) == Outcome([], 3, MatchEvent([Trade(2, 1, 10, 5, 2)], [r]));
    assert r in [r];
    assert map[1 := Shelf(Sell, 10)] - ReportedIds([r]) == map[];
  }

  // ---------- Price-time priority ----------

  /** What a greedy sweep takes from order `i`: what is wanted beyond everything ahead of it. */
  function Taken(o: IncomingOrder, left: Quantity, q: seq<Entry>, i: nat): Quantity
    requires i < |q|
  {
    if o.otype != Market && (if o.side == Buy then q[i].price > o.price else q[i].price < o.price) then 0
    else
      var wanted := left - Total(q[..i]);
      if wanted <= 0 then 0 else Min(wanted, q[i].remaining)
  }

  /** The reports are those of the first `n` orders, all filled. */
  ghost predicate ReportsFirst(reports: seq<Report>, q: seq<Entry>, n: nat) {
    && |reports| == n <= |q|
    && forall i :: 0 <= i < n ==> reports[i] == Report(q[i].id, Filled, q[i].side, q[i].price, q[i].quantity, 0)
  }

  /** A trade of `o` with the resting order `e`, at the resting price and stamped by the incoming order. */
  predicate IsTradeOf(t: Trade, o: IncomingOrder, e: Entry, quantity: Quantity) {
    && t.price == e.price && t.timestamp == o.timestamp && t.quantity == quantity
    && (if o.side == Buy then t.buyOrderId == o.id && t.sellOrderId == e.id
        else t.sellOrderId == o.id && t.buyOrderId == e.id)
  }

  /** The trades are what a greedy sweep takes from the first `k` orders. */
  ghost predicate TradesFirst(o: IncomingOrder, left: Quantity, q: seq<Entry>, trades: seq<Trade>, k: nat) {
    && |trades| == k <= |q|
    && (forall i :: 0 <= i < |q| ==> (i < k <==> Taken(o, left, q, i) > 0))
    && (forall i :: 0 <= i < k ==> IsTradeOf(trades[i], o, q[i], Taken(o, left, q, i)))
    && (forall i :: 0 <= i < k - 1 ==> Taken(o, left, q, i) == q[i].remaining)
  }

  /** The outcome of matching is the greedy sweep of the first `k` orders; only the last may survive, reduced. */
  ghost predicate IsGreedy(o: IncomingOrder, left: Quantity, q: seq<Entry>, m: Outcome, k: nat) {
    && TradesFirst(o, left, q, m.event.trades, k)
    && (if k > 0 && Taken(o, left, q, k - 1) < q[k - 1].remaining
        then && m.queue == [Reduced(q[k - 1], Taken(o, left, q, k - 1))] + q[k..]
             && ReportsFirst(m.event.reports, q, k - 1)
        else m.queue == q[k..] && ReportsFirst(m.event.reports, q, k))
  }

  lemma TakenShifts(o: IncomingOrder, left: Quantity, q: seq<Entry>, i: nat)
    requires 0 < i < |q|
    ensures Taken(o, left, q, i) == Taken(o, left - q[0].remaining, q[1..], i - 1)
  {
    assert q[..i][1..] == q[1..][..i - 1];
  }

  lemma {:induction false} NothingTaken(o: IncomingOrder, left: Quantity, q: seq<Entry>, i: nat)
    requires i < |q| && left <= 0 && Positive(q)
    ensures Taken(o, left, q, i) == 0
  {
    TotalIsNonnegative(q[..i]);
  }

  lemma {:induction false} TotalIsNonnegative(q: seq<Entry>)
    requires Positive(q)
    ensures Total(q) >= 0
  {
    if q != [] {
      TotalIsNonnegative(q[1..]);
    }
  }

  /**
   Trades go through the queue from its front, each at the resting price, each
   filling its order completely except possibly the last.
   */
  lemma {:induction false} MatchIsGreedy(o: IncomingOrder, left: Quantity, q: seq<Entry>)
    requires left >= 0 && Positive(q) && Sorted(o.side.Opposite(), q)
    ensures IsGreedy(o, left, q, MatchOf(o, left, q), |MatchOf(o, left, q).event.trades|)
    decreases |q|, 1
  {
    if Done(o, left, q) {
      forall i | 0 <= i < |q|
        ensures Taken(o, left, q, i) == 0
      {
        if left <= 0 {
          NothingTaken(o, left, q, i);
        }
      }
    } else if left < q[0].remaining {
      MatchReduces(o, left, q);
      forall i | 0 < i < |q|
        ensures Taken(o, left, q, i) == 0
      {
        TakenShifts(o, left, q, i);
        NothingTaken(o, left - q[0].remaining, q[1..], i - 1);
      }
    } else {
      GreedyPops(o, left, q);
    }
  }

  lemma {:induction false} GreedyPops(o: IncomingOrder, left: Quantity, q: seq<Entry>)
    requires left >= 0 && Positive(q) && Sorted(o.side.Opposite(), q)
    requires !Done(o, left, q) && left >= q[0].remaining
    ensures IsGreedy(o, left, q, MatchOf(o, left, q), |MatchOf(o, left, q).event.trades|)
    decreases |q|, 0
  {
    hide Match, TradesFirst, ReportsFirst, Taken;
    MatchPops(o, left, q);
    var rest := left - q[0].remaining;
    MatchIsGreedy(o, rest, q[1..]);
    var m := MatchOf(o, rest, q[1..]);
    var k := |m.event.trades|;
    TradesShift(o, left, q, m.event.trades, k);
    ReportsShift(m.event.reports, q, k);
    if k > 0 {
      TakenShifts(o, left, q, k);
      ReportsShift(m.event.reports, q, k - 1);
    } else {
      FrontTaken(o, left, q);
    }
    assert q[1..][k..] == q[k + 1..];
  }

  lemma FrontTaken(o: IncomingOrder, left: Quantity, q: seq<Entry>)
    requires q != [] && Crosses(o, q[0].price) && left >= q[0].remaining > 0
    ensures Taken(o, left, q, 0) == q[0].remaining
  {
  }

  lemma TradesShift(o: IncomingOrder, left: Quantity, q: seq<Entry>, trades: seq<Trade>, k: nat)
    requires q != [] && Crosses(o, q[0].price) && left >= q[0].remaining > 0
    requires TradesFirst(o, left - q[0].remaining, q[1..], trades, k)
    ensures k < |q|
    ensures TradesFirst(o, left, q, [TradeWith(o, q[0], q[0].remaining)] + trades, k + 1)
  {
    FrontTaken(o, left, q);
    forall i | 0 < i < |q|
      ensures Taken(o, left, q, i) == Taken(o, left - q[0].remaining, q[1..], i - 1)
    {
      TakenShifts(o, left, q, i);
    }
    hide Taken;
  }

  lemma ReportsShift(reports: seq<Report>, q: seq<Entry>, n: nat)
    requires q != []
    ensures ReportsFirst(reports, q[1..], n) ==> ReportsFirst([FilledReport(q[0])] + reports, q, n + 1)
  {
  }

  // ---------- Additivity ----------

  predicate SameParties(t: Trade, u: Trade) {
    t.buyOrderId == u.buyOrderId && t.sellOrderId == u.sellOrderId
  }

  /** Appends trades, merging a fill of one order that was split at the boundary. */
  function Join(a: seq<Trade>, b: seq<Trade>): seq<Trade> {
    if a == [] then b
    else if |a| > 1 then [a[0]] + Join(a[1..], b)
    else if b != [] && SameParties(a[0], b[0]) then [a[0].(quantity := a[0].quantity + b[0].quantity)] + b[1..]
    else a + b
  }

  lemma JoinPastFirst(t: Trade, a: seq<Trade>, b: seq<Trade>)
    requires a != [] || b == [] || !SameParties(t, b[0])
    ensures Join([t] + a, b) == [t] + Join(a, b)
  {
    assert ([t] + a)[1..] == a;
  }

  /** The first trade names the front order. */
  lemma FirstTrade(o: IncomingOrder, left: Quantity, q: seq<Entry>)
    ensures var m := MatchOf(o, left, q);
            m.event.trades != [] ==> q != [] && SameParties(m.event.trades[0], TradeWith(o, q[0], 0))
  {
    if !Done(o, left, q) {
      if left >= q[0].remaining {
        MatchPops(o, left, q);
      } else {
        MatchReduces(o, left, q);
      }
    }
  }

  /**
   Matching `a` and then `b` does what matching `a + b` does, up to the one fill
   that the boundary may split in two.
   */
  lemma {:induction false} MatchIsAdditive(o: IncomingOrder, a: Quantity, b: Quantity, q: seq<Entry>)
    requires a >= 0 && b >= 0 && Positive(q) && DistinctIds(q) && Sorted(o.side.Opposite(), q)
    ensures var first := MatchOf(o, a, q);
            var second := MatchOf(o, b, first.queue);
            MatchOf(o, a + b, q) == Outcome(second.queue, first.left + second.left,
              MatchEvent(Join(first.event.trades, second.event.trades), first.event.reports + second.event.reports))
    decreases |q|
  {
    if Done(o, a, q) {
      FirstIsNothing(o, a, b, q);
    } else if a < q[0].remaining {
      MatchReduces(o, a, q);
      BoundaryInFront(o, a, b, q);
    } else {
      hide Match, Join;
      var r := q[0].remaining;
      MatchPops(o, a, q);
      MatchPops(o, a + b, q);
      MatchIsAdditive(o, a - r, b, q[1..]);
      var rest := MatchOf(o, a - r, q[1..]);
      var second := MatchOf(o, b, rest.queue);
      FirstTrade(o, b, rest.queue);
      FrontStays(o, a - r, q[1..], q[0].id);
      JoinPastFirst(TradeWith(o, q[0], r), rest.event.trades, second.event.trades);
      assert ([FilledReport(q[0])] + rest.event.reports) + second.event.reports
          == [FilledReport(q[0])] + (rest.event.reports + second.event.reports);
    }
  }

  /** The first part of the quantity finds nothing to trade with, or is nothing. */
  lemma FirstIsNothing(o: IncomingOrder, a: Quantity, b: Quantity, q: seq<Entry>)
    requires a >= 0 && b >= 0 && Done(o, a, q)
    ensures var second := MatchOf(o, b, q);
            && MatchOf(o, a, q) == Outcome(q, a, NO_EVENT)
            && MatchOf(o, a + b, q) == Outcome(second.queue, a + second.left,
                 MatchEvent(Join([], second.event.trades), [] + second.event.reports))
  {
  }

  /** If nothing was traded, the front order is still the same, and not one with another id. */
  lemma FrontStays(o: IncomingOrder, left: Quantity, q: seq<Entry>, id: OrderID)
    requires left >= 0 && Positive(q) && forall i :: 0 <= i < |q| ==> q[i].id != id
    ensures var m := MatchOf(o, left, q);
            m.event.trades == [] ==> m.queue == q
  {
    if !Done(o, left, q) {
      if left >= q[0].remaining {
        MatchPops(o, left, q);
      } else {
        MatchReduces(o, left, q);
      }
    }
  }

  /** The boundary falls inside the front order. */
  lemma BoundaryInFront(o: IncomingOrder, a: Quantity, b: Quantity, q: seq<Entry>)
    requires a > 0 && b >= 0 && q != [] && a < q[0].remaining && Crosses(o, q[0].price)
    ensures var reduced := [Reduced(q[0], a)] + q[1..];
            var second := MatchOf(o, b, reduced);
            MatchOf(o, a + b, q) == Outcome(second.queue, second.left,
              MatchEvent(Join([TradeWith(o, q[0], a)], second.event.trades), [] + second.event.reports))
  {
    hide Match;
    var reduced := [Reduced(q[0], a)] + q[1..];
    assert reduced[1..] == q[1..];
    var t := TradeWith(o, q[0], a);
    if b == 0 {
      MatchReduces(o, a, q);
      MatchNothing(o, reduced);
      assert Join([t], []) == [t];
    } else if b < q[0].remaining - a {
      MatchReduces(o, a + b, q);
      MatchReduces(o, b, reduced);
      assert Join([t], [TradeWith(o, reduced[0], b)]) == [TradeWith(o, q[0], a + b)];
    } else {
      MatchPops(o, a + b, q);
      MatchPops(o, b, reduced);
      var rest := MatchOf(o, b - reduced[0].remaining, q[1..]).event.trades;
      JoinSplit(t, TradeWith(o, reduced[0], reduced[0].remaining), rest);
    }
  }

  lemma JoinSplit(t: Trade, u: Trade, rest: seq<Trade>)
    requires SameParties(t, u)
    ensures Join([t], [u] + rest) == [t.(quantity := t.quantity + u.quantity)] + rest
  {
    assert ([u] + rest)[1..] == rest;
  }

  lemma MatchNothing(o: IncomingOrder, q: seq<Entry>)
    ensures MatchOf(o, 0, q) == Outcome(q, 0, NO_EVENT)
  {
  }
}
