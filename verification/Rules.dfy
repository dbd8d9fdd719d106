/**
 The rules of the exchange, written over the fields of orders, trades and reports
 and without the functions of the specification: which orders are refused, at
 which prices an order trades, and what trades, reports and resting orders say.
 Of each order and each cancel they hold for exactly one answer, the one that
 the specification gives.
 */
module Rules {
  import opened Types
  import opened BookSpec
  import opened MatchingLaws
  import opened BookLaws
  import Runs

  /** What an engine makes of one call: its limits and lost orders, its book, and the event. */
  datatype Answer = Answer(machine: Machine, book: Book, event: MatchEvent)

  // ---------- Trades ----------

  /** The quantity that changes hands. */
  function Volume(trades: seq<Trade>): Quantity {
    if trades == [] then 0 else trades[0].quantity + Volume(trades[1..])
  }

  /** A price beyond the limit of the order; a Market order has none. */
  predicate IsBeyond(o: IncomingOrder, price: Price) {
    o.otype != Market && (if o.side == Buy then price > o.price else price < o.price)
  }

  /** A trade with the resting order `e` for no more than it has left, at its price, which is within the limit. */
  predicate TradeRule(o: IncomingOrder, e: Entry, t: Trade) {
    IsTradeOf(t, o, e, t.quantity) && 0 < t.quantity <= e.remaining && !IsBeyond(o, t.price)
  }

  /**
   One fill against the resting order `e`: a trade for as much as both want, and its
   report, after those of the fills before it, if nothing of it is left.
   */
  ghost predicate FillRules(o: IncomingOrder, left: Quantity, e: Entry, ev: MatchEvent, left': Quantity,
                            ev': MatchEvent)
  {
    && |ev'.trades| == |ev.trades| + 1 && ev'.trades[..|ev.trades|] == ev.trades
    && IsTradeOf(ev'.trades[|ev.trades|], o, e, if left < e.remaining then left else e.remaining)
    && left' == (if left < e.remaining then 0 else left - e.remaining)
    && ev'.reports == ev.reports + if left < e.remaining then []
                                   else [Report(e.id, Filled, e.side, e.price, e.quantity, 0)]
  }

  lemma FillByTheRules(o: IncomingOrder, left: Quantity, q: seq<Entry>, ev: MatchEvent)
    requires q != []
    ensures var f := Fill(o, left, q, ev); FillRules(o, left, q[0], ev, f.left, f.event)
  {
    assert ev.reports + [] == ev.reports;
  }

  /**
   The trades of an order that wants `wanted` from the queue `q`. Trade `i` is with
   order `i` of the queue. Only the last trade may leave something of its order, and
   only if nothing more is wanted. If more is wanted, every order behind has a price
   beyond the limit.
   */
  ghost predicate TradeRules(o: IncomingOrder, wanted: Quantity, q: seq<Entry>, trades: seq<Trade>) {
    && |trades| <= |q|
    && (forall i :: 0 <= i < |trades| ==> TradeRule(o, q[i], trades[i]))
    && (forall i :: 0 <= i < |trades| ==>
          trades[i].quantity == q[i].remaining || (i == |trades| - 1 && Volume(trades) == wanted))
    && Volume(trades) <= wanted
    && (Volume(trades) < wanted ==>
          forall i :: |trades| <= i < |q| ==> IsBeyond(o, q[i].price))
  }

  /** How many orders of the queue these trades fill completely. */
  function Emptied(q: seq<Entry>, trades: seq<Trade>): (n: nat)
    requires |trades| <= |q|
    ensures n <= |trades|
  {
    if trades != [] && trades[|trades| - 1].quantity < q[|trades| - 1].remaining then |trades| - 1 else |trades|
  }

  /**
   The filled orders are gone; the order that was filled in part is now the first,
   and the others are as they were.
   */
  ghost predicate QueueRules(q: seq<Entry>, trades: seq<Trade>, q': seq<Entry>)
    requires |trades| <= |q|
  {
    var n := Emptied(q, trades);
    q' == if n == |trades| then q[n..]
          else [q[n].(remaining := q[n].remaining - trades[n].quantity, status := PartiallyFilled)] + q[n + 1..]
  }

  /** The reports of the first `n` orders when they are filled. */
  function FilledReports(q: seq<Entry>, n: nat): seq<Report>
    requires n <= |q|
  {
    seq(n, i requires 0 <= i < n => Report(q[i].id, Filled, q[i].side, q[i].price, q[i].quantity, 0))
  }

  ghost predicate SweepRules(o: IncomingOrder, wanted: Quantity, q: seq<Entry>, r: Outcome) {
    && TradeRules(o, wanted, q, r.event.trades)
    && QueueRules(q, r.event.trades, r.queue)
    && r.event.reports == FilledReports(q, Emptied(q, r.event.trades))
    && r.left == wanted - Volume(r.event.trades)
  }

  lemma NoTrades(o: IncomingOrder, left: Quantity, q: seq<Entry>)
    requires left >= 0 && Sorted(o.side.Opposite(), q) && Done(o, left, q)
    ensures SweepRules(o, left, q, Outcome(q, left, NO_EVENT))
  {
  }

  lemma LastTrade(o: IncomingOrder, left: Quantity, q: seq<Entry>)
    requires !Done(o, left, q) && left < q[0].remaining
    ensures SweepRules(o, left, q,
              Outcome([Reduced(q[0], left)] + q[1..], 0, MatchEvent([TradeWith(o, q[0], left)], [])))
  {
    var t := TradeWith(o, q[0], left);
    assert Volume([t]) == left;
  }

  lemma FirstTrade(o: IncomingOrder, left: Quantity, q: seq<Entry>, r: Outcome)
    requires !Done(o, left, q) && left >= q[0].remaining > 0
    requires SweepRules(o, left - q[0].remaining, q[1..], r)
    ensures SweepRules(o, left, q, Outcome(r.queue, r.left,
              MatchEvent([TradeWith(o, q[0], q[0].remaining)] + r.event.trades,
                         [FilledReport(q[0])] + r.event.reports)))
  {
    var trades := [TradeWith(o, q[0], q[0].remaining)] + r.event.trades;
    FirstInTradeRules(o, left, q, r.event.trades);
    FirstInQueueRules(q, trades[0], r.event.trades, r.queue);
    assert trades[1..] == r.event.trades;
    hide TradeRules, QueueRules, Emptied, FilledReports;
  }

  lemma FirstInQueueRules(q: seq<Entry>, t: Trade, trades: seq<Trade>, q': seq<Entry>)
    requires q != [] && t.quantity == q[0].remaining && |trades| < |q| && QueueRules(q[1..], trades, q')
    ensures QueueRules(q, [t] + trades, q')
    ensures FilledReports(q, Emptied(q, [t] + trades))
            == [FilledReport(q[0])] + FilledReports(q[1..], Emptied(q[1..], trades))
  {
    var n := Emptied(q[1..], trades);
    assert Emptied(q, [t] + trades) == n + 1;
    assert q[1..][n..] == q[n + 1..];
    if n < |trades| {
      assert q[1..][n + 1..] == q[n + 2..];
    }
  }

  lemma FirstInTradeRules(o: IncomingOrder, left: Quantity, q: seq<Entry>, trades: seq<Trade>)
    requires !Done(o, left, q) && left >= q[0].remaining > 0
    requires TradeRules(o, left - q[0].remaining, q[1..], trades)
    ensures TradeRules(o, left, q, [TradeWith(o, q[0], q[0].remaining)] + trades)
  {
    var all := [TradeWith(o, q[0], q[0].remaining)] + trades;
    assert all[1..] == trades;
    assert TradeRule(o, q[0], all[0]);
    hide TradeRule, IsBeyond;
    assert forall i :: 0 < i < |q| ==> q[i] == q[1..][i - 1];
    assert forall i :: 0 < i < |all| ==> all[i] == trades[i - 1];
  }

  lemma {:induction false} MatchByTheRules(o: IncomingOrder, left: Quantity, q: seq<Entry>)
    requires left >= 0 && Positive(q) && Sorted(o.side.Opposite(), q)
    ensures SweepRules(o, left, q, MatchOf(o, left, q))
    decreases |q|
  {
    hide SweepRules;
    if Done(o, left, q) {
      NoTrades(o, left, q);
    } else if left < q[0].remaining {
      MatchReduces(o, left, q);
      LastTrade(o, left, q);
    } else {
      MatchPops(o, left, q);
      MatchByTheRules(o, left - q[0].remaining, q[1..]);
      FirstTrade(o, left, q, MatchOf(o, left - q[0].remaining, q[1..]));
    }
  }

  // ---------- The rules leave no choice of trades ----------

  lemma {:induction false} VolumeIsPositive(o: IncomingOrder, wanted: Quantity, q: seq<Entry>, trades: seq<Trade>)
    requires |trades| <= |q| && forall i :: 0 <= i < |trades| ==> trades[i].quantity > 0
    ensures Volume(trades) >= 0 && (trades != [] ==> Volume(trades) >= trades[0].quantity)
  {
    if trades != [] {
      VolumeIsPositive(o, wanted, q[1..], trades[1..]);
    }
  }

  lemma RestOfTrades(o: IncomingOrder, wanted: Quantity, q: seq<Entry>, trades: seq<Trade>)
    requires TradeRules(o, wanted, q, trades) && trades != [] && trades[0].quantity == q[0].remaining
    ensures TradeRules(o, wanted - q[0].remaining, q[1..], trades[1..])
  {
    var rest := trades[1..];
    hide TradeRule, IsBeyond;
    assert forall i :: 0 <= i < |rest| ==> rest[i] == trades[i + 1];
    assert forall i :: 0 <= i < |q[1..]| ==> q[1..][i] == q[i + 1];
  }

  lemma {:induction false} TradesAreDetermined(o: IncomingOrder, wanted: Quantity, q: seq<Entry>, t: seq<Trade>,
                                               u: seq<Trade>)
    requires TradeRules(o, wanted, q, t) && TradeRules(o, wanted, q, u)
    ensures t == u
    decreases |t|
  {
    VolumeIsPositive(o, wanted, q, t);
    VolumeIsPositive(o, wanted, q, u);
    if t != [] && u != [] {
      FirstIsDetermined(o, wanted, q, t, u);
      if t[0].quantity == q[0].remaining {
        RestOfTrades(o, wanted, q, t);
        RestOfTrades(o, wanted, q, u);
        TradesAreDetermined(o, wanted - q[0].remaining, q[1..], t[1..], u[1..]);
        assert t == [t[0]] + t[1..] && u == [u[0]] + u[1..];
      }
    }
  }

  lemma FirstIsDetermined(o: IncomingOrder, wanted: Quantity, q: seq<Entry>, t: seq<Trade>, u: seq<Trade>)
    requires TradeRules(o, wanted, q, t) && TradeRules(o, wanted, q, u) && t != [] && u != []
    ensures t[0] == u[0]
    ensures t[0].quantity < q[0].remaining ==> |t| == |u| == 1
  {
    VolumeIsPositive(o, wanted, q, t);
    VolumeIsPositive(o, wanted, q, u);
    assert |t| == 1 ==> Volume(t) == t[0].quantity;
    assert |u| == 1 ==> Volume(u) == u[0].quantity;
  }

  // ---------- One order ----------

  /** The queue that the order trades with, and the one it may rest in. */
  function Facing(book: Book, o: IncomingOrder): seq<Entry> {
    if o.side == Buy then book.asks else book.bids
  }

  function Own(book: Book, o: IncomingOrder): seq<Entry> {
    if o.side == Buy then book.bids else book.asks
  }

  /** `e` stands behind every order that is at least as good and before every worse one. */
  ghost predicate StandsAt(q: seq<Entry>, e: Entry, k: nat, q': seq<Entry>) {
    && k <= |q| && q' == q[..k] + [e] + q[k..]
    && (forall i :: 0 <= i < k ==> if e.side == Buy then q[i].price >= e.price else q[i].price <= e.price)
    && (forall i :: k <= i < |q| ==> if e.side == Buy then q[i].price < e.price else q[i].price > e.price)
  }

  ghost predicate TakesItsPlace(q: seq<Entry>, e: Entry, q': seq<Entry>) {
    exists k: nat :: StandsAt(q, e, k, q')
  }

  /** The ids of the first `n` orders. */
  function FirstIds(q: seq<Entry>, n: nat): set<OrderID>
    requires n <= |q|
  {
    set i | 0 <= i < n :: q[i].id
  }

  /**
   An order that rests takes its place among the orders of its side, with all that it
   has left; without a level it is lost. Its id is mapped to it either way, and the
   ids of the orders it filled are mapped no more.
   */
  ghost predicate RestRules(m: Machine, book: Book, o: IncomingOrder, left: Quantity, rests: bool, filled: set<OrderID>,
                            a: Answer)
  {
    var onLevel := m.Fast? ==> o.price < m.levels;
    var e := Entry(o.id, o.side, o.otype, o.price, o.quantity, left, o.timestamp, Resting);
    && (if rests && onLevel then TakesItsPlace(Own(book, o), e, Own(a.book, o)) else Own(a.book, o) == Own(book, o))
    && a.machine == (if rests && !onLevel then m.(lost := m.lost + [e.(status := Cancelled)]) else m)
    && a.book.ids == (book.ids - filled) + (if rests then map[o.id := Shelf(o.side, o.price)] else map[])
  }

  /**
   An order that is not refused trades by the rules. What is left of it rests if it
   is a Limit order and there is room; its own report is the last and says so.
   */
  ghost predicate AcceptedRules(m: Machine, book: Book, o: IncomingOrder, a: Answer) {
    var left := o.quantity - Volume(a.event.trades);
    var rests := left > 0 && o.otype == Limit
                 && (m.Fast? ==> |Facing(a.book, o)| + |Own(book, o)| + |m.lost| < m.capacity);
    && TradeRules(o, o.quantity, Facing(book, o), a.event.trades)
    && QueueRules(Facing(book, o), a.event.trades, Facing(a.book, o))
    && a.event.reports == FilledReports(Facing(book, o), Emptied(Facing(book, o), a.event.trades))
       + [Report(o.id, if left == 0 then Filled else if rests then Resting else Cancelled,
                 o.side, o.price, o.quantity - left, left)]
    && RestRules(m, book, o, left, rests, FirstIds(Facing(book, o), Emptied(Facing(book, o), a.event.trades)), a)
  }

  /**
   One order. It is refused for a non-positive quantity, for id 0 and, by the fast
   engine only, as a Limit order for a non-positive price: then nothing changes and
   it is reported Cancelled with nothing filled.
   */
  ghost predicate OrderRules(m: Machine, book: Book, o: IncomingOrder, a: Answer) {
    if o.quantity <= 0 || o.id == 0 || (m.Fast? && o.otype == Limit && o.price <= 0)
    then a == Answer(m, book, MatchEvent([], [Report(o.id, Cancelled, o.side, o.price, 0, o.quantity)]))
    else AcceptedRules(m, book, o, a)
  }

  lemma ReportedAreFirst(q: seq<Entry>, n: nat)
    requires n <= |q|
    ensures ReportedIds(FilledReports(q, n)) == FirstIds(q, n)
  {
    var reports := FilledReports(q, n);
    forall i | 0 <= i < n
      ensures q[i].id in ReportedIds(reports)
    {
      assert reports[i] in reports;
    }
  }

  lemma InsertTakesPlace(q: seq<Entry>, e: Entry)
    requires Sorted(e.side, q)
    ensures TakesItsPlace(q, e, Insert(q, e))
  {
    var k := InsertPlace(q, e);
    assert StandsAt(q, e, k, Insert(q, e));
  }

  lemma NothingErasedOrAdded(ids: map<OrderID, Place>, gone: set<OrderID>, id: OrderID, p: Place)
    ensures (ids - gone) + map[] == ids - gone
    ensures (ids - gone) + map[id := p] == (ids - gone)[id := p]
  {
  }

  /** What the specification answers to an order. */
  function OrderAnswer(m: Machine, book: Book, o: IncomingOrder): Answer {
    Answer(Next(m, book, o), Process(m, book, o).book, Process(m, book, o).event)
  }

  lemma SweptByTheRules(book: Book, o: IncomingOrder)
    requires Inv(book) && o.quantity > 0
    ensures var q, r := Facing(book, o), MatchIn(book, o);
            && SweepRules(o, o.quantity, q, r)
            && Facing(Swept(book, o), o) == r.queue && Own(Swept(book, o), o) == Own(book, o)
            && Swept(book, o).ids == book.ids - FirstIds(q, Emptied(q, r.event.trades))
  {
    var q, r := Facing(book, o), MatchIn(book, o);
    MatchByTheRules(o, o.quantity, q);
    ReportedAreFirst(q, Emptied(q, r.event.trades));
    hide TradeRules, Match, QueueRules, Emptied, FilledReports, FirstIds, ReportedIds;
  }

  lemma SettledByTheRules(m: Machine, book: Book, o: IncomingOrder, gone: set<OrderID>)
    requires m.Accepts(o) && MatchIn(book, o).left >= 0
    requires Swept(book, o).ids == book.ids - gone
    requires Facing(Swept(book, o), o) == MatchIn(book, o).queue && Own(Swept(book, o), o) == Own(book, o)
    requires Sorted(o.side, Own(book, o))
    ensures var a, r := OrderAnswer(m, book, o), MatchIn(book, o);
            var rests := r.left > 0 && o.otype == Limit
                         && (m.Fast? ==> |r.queue| + |Own(book, o)| + |m.lost| < m.capacity);
            && a.event.trades == r.event.trades
            && a.event.reports == r.event.reports
               + [Report(o.id, if r.left == 0 then Filled else if rests then Resting else Cancelled,
                         o.side, o.price, o.quantity - r.left, r.left)]
            && RestRules(m, book, o, r.left, rests, gone, a)
            && Facing(a.book, o) == r.queue
  {
    NothingErasedOrAdded(book.ids, gone, o.id, Shelf(o.side, o.price));
    InsertTakesPlace(Own(book, o), EntryOf(o, MatchIn(book, o).left));
    hide MatchIn, Swept, Insert, TakesItsPlace, Sorted;
  }

  /** What a settled order that swept by the rules amounts to. */
  lemma AcceptedByTheRules(m: Machine, book: Book, o: IncomingOrder, r: Outcome, a: Answer)
    requires SweepRules(o, o.quantity, Facing(book, o), r)
    requires var rests := r.left > 0 && o.otype == Limit
                          && (m.Fast? ==> |r.queue| + |Own(book, o)| + |m.lost| < m.capacity);
             && a.event.trades == r.event.trades
             && a.event.reports == r.event.reports
                + [Report(o.id, if r.left == 0 then Filled else if rests then Resting else Cancelled,
                          o.side, o.price, o.quantity - r.left, r.left)]
             && RestRules(m, book, o, r.left, rests,
                          FirstIds(Facing(book, o), Emptied(Facing(book, o), r.event.trades)), a)
             && Facing(a.book, o) == r.queue
    ensures AcceptedRules(m, book, o, a)
  {
    assert |r.event.trades| <= |Facing(book, o)|;
    hide RestRules, TradeRules, QueueRules, FilledReports, FirstIds, Volume, Emptied, Facing, Own;
  }

  lemma RefusedByTheRules(m: Machine, book: Book, o: IncomingOrder)
    ensures m.Accepts(o) <==> !(o.quantity <= 0 || o.id == 0 || (m.Fast? && o.otype == Limit && o.price <= 0))
    ensures !m.Accepts(o) ==>
              OrderAnswer(m, book, o)
              == Answer(m, book, MatchEvent([], [Report(o.id, Cancelled, o.side, o.price, 0, o.quantity)]))
  {
    hide MatchIn, Swept;
  }

  lemma ProcessByTheRules(m: Machine, book: Book, o: IncomingOrder)
    requires Inv(book)
    ensures OrderRules(m, book, o, OrderAnswer(m, book, o))
  {
    RefusedByTheRules(m, book, o);
    hide AcceptedRules, OrderAnswer;
    if m.Accepts(o) {
      QueueIsSorted(book, o.side);
      assert o.quantity > 0 && Sorted(o.side, Own(book, o));
      hide *;
      var q, r := Facing(book, o), MatchIn(book, o);
      SweptByTheRules(book, o);
      LeftIsNonnegative(o, q, r);
      SettledByTheRules(m, book, o, FirstIds(q, Emptied(q, r.event.trades)));
      AcceptedByTheRules(m, book, o, r, OrderAnswer(m, book, o));
    }
  }

  lemma LeftIsNonnegative(o: IncomingOrder, q: seq<Entry>, r: Outcome)
    requires SweepRules(o, o.quantity, q, r)
    ensures r.left >= 0 && |r.event.trades| <= |q|
  {
  }

  lemma PlaceIsDetermined(q: seq<Entry>, e: Entry, a: seq<Entry>, b: seq<Entry>)
    requires TakesItsPlace(q, e, a) && TakesItsPlace(q, e, b)
    ensures a == b
  {
    var i: nat :| StandsAt(q, e, i, a);
    var j: nat :| StandsAt(q, e, j, b);
  }

  lemma RestIsDetermined(m: Machine, book: Book, o: IncomingOrder, left: Quantity, rests: bool, filled: set<OrderID>,
                         a: Answer, b: Answer)
    requires RestRules(m, book, o, left, rests, filled, a) && RestRules(m, book, o, left, rests, filled, b)
    requires Facing(a.book, o) == Facing(b.book, o)
    ensures a.machine == b.machine && a.book == b.book
  {
    var e := Entry(o.id, o.side, o.otype, o.price, o.quantity, left, o.timestamp, Resting);
    if rests && (m.Fast? ==> o.price < m.levels) {
      PlaceIsDetermined(Own(book, o), e, Own(a.book, o), Own(b.book, o));
    }
    hide TakesItsPlace;
  }

  lemma QueueIsDetermined(q: seq<Entry>, trades: seq<Trade>, a: seq<Entry>, b: seq<Entry>)
    requires |trades| <= |q|
    ensures QueueRules(q, trades, a) && QueueRules(q, trades, b) ==> a == b
  {
  }

  lemma AcceptedRulesDecide(m: Machine, book: Book, o: IncomingOrder, a: Answer, b: Answer)
    requires AcceptedRules(m, book, o, a) && AcceptedRules(m, book, o, b)
    ensures a == b
  {
    var q, trades := Facing(book, o), a.event.trades;
    TradesAreDetermined(o, o.quantity, q, trades, b.event.trades);
    var left := o.quantity - Volume(trades);
    var rests := left > 0 && o.otype == Limit
                 && (m.Fast? ==> |Facing(a.book, o)| + |Own(book, o)| + |m.lost| < m.capacity);
    QueueIsDetermined(q, trades, Facing(a.book, o), Facing(b.book, o));
    hide TradeRules, RestRules, Volume, QueueRules, Emptied, FilledReports, FirstIds, Facing, Own;
    RestIsDetermined(m, book, o, left, rests, FirstIds(q, Emptied(q, trades)), a, b);
  }

  /** The answer of the specification to an order is the one answer that the rules allow. */
  lemma OrderRulesDecide(m: Machine, book: Book, o: IncomingOrder, a: Answer)
    requires Inv(book)
    ensures OrderRules(m, book, o, a) <==> a == OrderAnswer(m, book, o)
  {
    ProcessByTheRules(m, book, o);
    hide AcceptedRules, OrderAnswer;
    if AcceptedRules(m, book, o, a) && AcceptedRules(m, book, o, OrderAnswer(m, book, o)) {
      AcceptedRulesDecide(m, book, o, a, OrderAnswer(m, book, o));
    }
  }

  // ---------- What the rules say of prices, stamps and refusals ----------

  /**
   Every trade is at the price of the resting order, within the limit of the incoming
   order and stamped by it, and names the buyer and the seller.
   */
  lemma TradesAreFair(m: Machine, book: Book, o: IncomingOrder)
    requires Inv(book)
    ensures var trades := Process(m, book, o).event.trades;
            var q := if o.side == Buy then book.asks else book.bids;
            && |trades| <= |q|
            && forall i :: 0 <= i < |trades| ==>
                 && trades[i].price == q[i].price && trades[i].timestamp == o.timestamp
                 && trades[i].buyOrderId == (if o.side == Buy then o.id else q[i].id)
                 && trades[i].sellOrderId == (if o.side == Buy then q[i].id else o.id)
                 && (o.otype == Market || (if o.side == Buy then q[i].price <= o.price else q[i].price >= o.price))
  {
    ProcessByTheRules(m, book, o);
    var a := OrderAnswer(m, book, o);
    hide Process, Next, RestRules, QueueRules, FilledReports, Emptied, Volume, Inv;
    assert a.event.trades != [] ==> TradeRules(o, o.quantity, Facing(book, o), a.event.trades);
  }

  lemma FirstIsWithin(o: IncomingOrder, wanted: Quantity, q: seq<Entry>, trades: seq<Trade>)
    requires TradeRules(o, wanted, q, trades) && trades != []
    ensures !IsBeyond(o, q[0].price)
  {
    assert TradeRule(o, q[0], trades[0]);
  }

  lemma QueueLeftIsBeyond(o: IncomingOrder, wanted: Quantity, q: seq<Entry>, trades: seq<Trade>, q': seq<Entry>)
    requires TradeRules(o, wanted, q, trades) && QueueRules(q, trades, q') && Volume(trades) < wanted
    ensures forall i :: 0 <= i < |q'| ==>
              o.otype != Market && (if o.side == Buy then q'[i].price > o.price else q'[i].price < o.price)
  {
    assert q' == q[|trades|..];
    forall i | 0 <= i < |q'|
      ensures IsBeyond(o, q'[i].price)
    {
      assert q'[i] == q[|trades| + i];
    }
  }

  /**
   While something of an accepted order is left, every price on the other side is
   beyond its limit; a Market order leaves no order there.
   */
  lemma LeftoverFindsNothing(m: Machine, book: Book, o: IncomingOrder)
    requires Inv(book) && o.quantity > 0 && o.id != 0 && (m.Fast? && o.otype == Limit ==> o.price > 0)
    ensures Process(m, book, o).event.reports != []
    ensures var s := Process(m, book, o);
            var q' := if o.side == Buy then s.book.asks else s.book.bids;
            s.event.reports[|s.event.reports| - 1].remainingQuantity > 0 ==>
              forall i :: 0 <= i < |q'| ==>
                o.otype != Market && (if o.side == Buy then q'[i].price > o.price else q'[i].price < o.price)
  {
    ProcessByTheRules(m, book, o);
    var a := OrderAnswer(m, book, o);
    hide Process, Next, RestRules, FilledReports, FirstIds, Inv, Volume, TradeRules, QueueRules, Emptied;
    assert AcceptedRules(m, book, o, a);
    assert a.event.reports[|a.event.reports| - 1].remainingQuantity == o.quantity - Volume(a.event.trades);
    if Volume(a.event.trades) < o.quantity {
      QueueLeftIsBeyond(o, o.quantity, Facing(book, o), a.event.trades, Facing(a.book, o));
    }
  }

  lemma UnmatchedTradesNothing(o: IncomingOrder, wanted: Quantity, q: seq<Entry>, trades: seq<Trade>)
    requires forall i :: 0 <= i < |q| ==> IsBeyond(o, q[i].price)
    ensures TradeRules(o, wanted, q, trades) ==> trades == []
    ensures Volume([]) == 0 && Emptied(q, []) == 0 && FirstIds(q, 0) == {} && FilledReports(q, 0) == []
    ensures forall q' :: QueueRules(q, [], q') ==> q' == q
  {
    if TradeRules(o, wanted, q, trades) && trades != [] {
      FirstIsWithin(o, wanted, q, trades);
    }
  }

  /** What the rules come to for a Limit order without a counterpart that finds a slot and a level. */
  lemma UnmatchedIsAccepted(m: Machine, book: Book, o: IncomingOrder, a: Answer)
    requires AcceptedRules(m, book, o, a) && o.quantity > 0 && o.otype == Limit
    requires m.Fast? ==> o.price < m.levels && |Facing(book, o)| + |Own(book, o)| + |m.lost| < m.capacity
    requires forall i :: 0 <= i < |Facing(book, o)| ==> IsBeyond(o, Facing(book, o)[i].price)
    ensures a.event == MatchEvent([], [Report(o.id, Resting, o.side, o.price, 0, o.quantity)])
    ensures Facing(a.book, o) == Facing(book, o)
    ensures var e := Entry(o.id, o.side, Limit, o.price, o.quantity, o.quantity, o.timestamp, Resting);
            TakesItsPlace(Own(book, o), e, Own(a.book, o))
    ensures a.book.ids == book.ids[o.id := Shelf(o.side, o.price)] && a.machine == m
  {
    UnmatchedTradesNothing(o, o.quantity, Facing(book, o), a.event.trades);
    assert book.ids - {} + map[o.id := Shelf(o.side, o.price)] == book.ids[o.id := Shelf(o.side, o.price)];
    hide TradeRules, QueueRules, FirstIds, FilledReports, Emptied, Volume, TakesItsPlace, Facing, Own;
  }

  /** A Limit order that is not refused, finds no counterpart, and has a slot and a level, rests in full. */
  lemma UnmatchedLimitRests(m: Machine, book: Book, o: IncomingOrder)
    requires Inv(book) && o.quantity > 0 && o.id != 0 && o.otype == Limit
    requires m.Fast? ==> 0 < o.price < m.levels && |book.bids| + |book.asks| + |m.lost| < m.capacity
    requires o.side == Buy ==> forall i :: 0 <= i < |book.asks| ==> book.asks[i].price > o.price
    requires o.side == Sell ==> forall i :: 0 <= i < |book.bids| ==> book.bids[i].price < o.price
    ensures var s := Process(m, book, o);
            && s.event == MatchEvent([], [Report(o.id, Resting, o.side, o.price, 0, o.quantity)])
            && Facing(s.book, o) == Facing(book, o)
            && TakesItsPlace(Own(book, o),
                             Entry(o.id, o.side, Limit, o.price, o.quantity, o.quantity, o.timestamp, Resting),
                             Own(s.book, o))
            && s.book.ids == book.ids[o.id := Shelf(o.side, o.price)] && Next(m, book, o) == m
  {
    ProcessByTheRules(m, book, o);
    hide Process, Next, AcceptedRules, TakesItsPlace, Inv, Facing, Own;
    UnmatchedIsAccepted(m, book, o, OrderAnswer(m, book, o));
  }

  // ---------- One cancel ----------

  /** The last order of the queue with this id and price. */
  ghost predicate IsLastOf(q: seq<Entry>, id: OrderID, price: Price, k: nat) {
    && k < |q| && q[k].id == id && q[k].price == price
    && forall i :: k < i < |q| ==> !(q[i].id == id && q[i].price == price)
  }

  ghost predicate HasOrder(q: seq<Entry>, id: OrderID, price: Price) {
    exists i :: 0 <= i < |q| && q[i].id == id && q[i].price == price
  }

  /** That order is gone, and reported with its id, side and price and with what was filled and what it had left. */
  ghost predicate Withdraws(q: seq<Entry>, id: OrderID, price: Price, q': seq<Entry>, ev: MatchEvent) {
    exists k: nat ::
      && IsLastOf(q, id, price, k) && q' == q[..k] + q[k + 1..]
      && var filled := q[k].quantity - q[k].remaining;
         ev == MatchEvent([], [Report(id, Cancelled, q[k].side, price, filled, q[k].remaining)])
  }

  /**
   One cancel. An id that is mapped to a price withdraws the last order with that id
   at that price: from the lost orders if the price has no level, and then the id
   stays mapped to the freed slot; otherwise from its side, and the id is mapped no
   more. Any other cancel changes nothing and reports nothing.
   */
  ghost predicate CancelRules(m: Machine, book: Book, id: OrderID, a: Answer) {
    if id in book.ids && book.ids[id].Shelf? && m.Fast? && book.ids[id].price >= m.levels
       && HasOrder(m.lost, id, book.ids[id].price) then
      && a.book == book.(ids := book.ids[id := Freed])
      && a.machine.Fast? && a.machine == m.(lost := a.machine.lost)
      && Withdraws(m.lost, id, book.ids[id].price, a.machine.lost, a.event)
    else if id in book.ids && book.ids[id].Shelf?
            && HasOrder(if book.ids[id].side == Buy then book.bids else book.asks, id, book.ids[id].price) then
      && a.machine == m && a.book.ids == book.ids - {id}
      && (if book.ids[id].side == Buy
          then a.book.asks == book.asks && Withdraws(book.bids, id, book.ids[id].price, a.book.bids, a.event)
          else a.book.bids == book.bids && Withdraws(book.asks, id, book.ids[id].price, a.book.asks, a.event))
    else a == Answer(m, book, MatchEvent([], []))
  }

  /** What the specification answers to a cancel. */
  function CancelAnswer(m: Machine, book: Book, id: OrderID): Answer {
    Answer(Released(m, book, id), Cancel(m, book, id).book, Cancel(m, book, id).event)
  }

  lemma FoundIsLast(q: seq<Entry>, id: OrderID, price: Price)
    ensures HasOrder(q, id, price) <==> FindLast(q, id, price) < |q|
    ensures FindLast(q, id, price) < |q| ==> IsLastOf(q, id, price, FindLast(q, id, price))
  {
    var k := FindLast(q, id, price);
    hide FindLast;
    if HasOrder(q, id, price) {
      var i :| 0 <= i < |q| && q[i].id == id && q[i].price == price;
      assert Matches(q[i], id, price);
    }
    forall i | 0 <= i < |q| && (k < i || k == |q|)
      ensures !(q[i].id == id && q[i].price == price)
    {
      assert !Matches(q[i], id, price);
    }
    assert k < |q| ==> Matches(q[k], id, price);
  }

  lemma RemovedIsSplit<T>(q: seq<T>, k: nat)
    requires k < |q|
    ensures RemoveAt(q, k) == q[..k] + q[k + 1..]
  {
  }

  lemma FoundIsWithdrawn(q: seq<Entry>, id: OrderID, price: Price, k: nat)
    requires IsLastOf(q, id, price, k)
    ensures Withdraws(q, id, price, RemoveAt(q, k), AddReport(NO_EVENT, CancelReport(q[k])))
  {
    RemovedIsSplit(q, k);
    hide RemoveAt;
    assert NO_EVENT.reports + [CancelReport(q[k])] == [CancelReport(q[k])];
  }

  lemma CancelByTheRules(m: Machine, book: Book, id: OrderID)
    requires Cancellable(book, id)
    ensures CancelRules(m, book, id, CancelAnswer(m, book, id))
  {
    if id in book.ids {
      var p := book.ids[id];
      var lost, resting := FindLast(m.Lost(), id, p.price), FindLast(book.Queue(p.side), id, p.price);
      FoundIsLast(m.Lost(), id, p.price);
      FoundIsLast(book.Queue(p.side), id, p.price);
      if lost < |m.Lost()| {
        FoundIsWithdrawn(m.Lost(), id, p.price, lost);
      }
      if resting < |book.Queue(p.side)| {
        FoundIsWithdrawn(book.Queue(p.side), id, p.price, resting);
      }
    }
    hide FindLast, RemoveAt, Withdraws, IsLastOf, HasOrder, CancelReport, AddReport;
  }

  lemma WithdrawalIsDetermined(q: seq<Entry>, id: OrderID, price: Price, a: seq<Entry>, ev: MatchEvent, b: seq<Entry>,
                               ev': MatchEvent)
    requires Withdraws(q, id, price, a, ev) && Withdraws(q, id, price, b, ev')
    ensures a == b && ev == ev'
  {
    forall i, j | IsLastOf(q, id, price, i) && IsLastOf(q, id, price, j)
      ensures i == j
    {
    }
  }

  /** The answer of the specification to a cancel is the one answer that the rules allow. */
  lemma CancelRulesDecide(m: Machine, book: Book, id: OrderID, a: Answer)
    requires Cancellable(book, id)
    ensures CancelRules(m, book, id, a) <==> a == CancelAnswer(m, book, id)
  {
    CancelByTheRules(m, book, id);
    hide CancelAnswer, Withdraws;
    var b := CancelAnswer(m, book, id);
    if CancelRules(m, book, id, a) && id in book.ids {
      var price := book.ids[id].price;
      if a.machine.Fast? && b.machine.Fast? && m.Fast? && Withdraws(m.lost, id, price, a.machine.lost, a.event)
         && Withdraws(m.lost, id, price, b.machine.lost, b.event) {
        WithdrawalIsDetermined(m.lost, id, price, a.machine.lost, a.event, b.machine.lost, b.event);
      }
      if Withdraws(book.bids, id, price, a.book.bids, a.event)
         && Withdraws(book.bids, id, price, b.book.bids, b.event) {
        WithdrawalIsDetermined(book.bids, id, price, a.book.bids, a.event, b.book.bids, b.event);
      }
      if Withdraws(book.asks, id, price, a.book.asks, a.event)
         && Withdraws(book.asks, id, price, b.book.asks, b.event) {
        WithdrawalIsDetermined(book.asks, id, price, a.book.asks, a.event, b.book.asks, b.event);
      }
    }
  }

  // ---------- What the book shows ----------

  /** An order counts for the quantity at its own price, with what it has left, wherever it stands. */
  lemma {:induction false} QuantityAtPrice(a: seq<Entry>, e: Entry, b: seq<Entry>, price: Price)
    ensures TotalAt([], price) == 0
    ensures TotalAt(a + [e] + b, price) == TotalAt(a + b, price) + if e.price == price then e.remaining else 0
  {
    if a == [] {
      assert a + [e] + b == [e] + b && ([e] + b)[1..] == b && a + b == b;
    } else {
      QuantityAtPrice(a[1..], e, b, price);
      assert (a + [e] + b)[1..] == a[1..] + [e] + b && (a + b)[1..] == a[1..] + b;
    }
  }

  /** The best price is 0 on an empty side, and else the price of an order that no other one beats. */
  lemma BestPriceIsBest(book: Book, side: Side)
    requires Inv(book)
    ensures var q, best := book.Queue(side), BestPrice(book.Queue(side));
            if q == [] then best == 0
            else
              && (exists i :: 0 <= i < |q| && q[i].price == best)
              && (forall i :: 0 <= i < |q| ==> if side == Buy then q[i].price <= best else q[i].price >= best)
  {
    var q := book.Queue(side);
    assert q != [] ==> q[0].price == BestPrice(q);
  }

  /** The books of every run: best prices first, no crossing prices, and nothing rests without something left. */
  lemma ReachableBooks(m: Machine, ops: seq<Runs.Op>)
    ensures var b := Runs.RunOf(m, EMPTY_BOOK, ops).book;
            && (forall i, j :: 0 <= i < j < |b.bids| ==> b.bids[i].price >= b.bids[j].price)
            && (forall i, j :: 0 <= i < j < |b.asks| ==> b.asks[i].price <= b.asks[j].price)
            && (forall i, j :: 0 <= i < |b.bids| && 0 <= j < |b.asks| ==> b.bids[i].price < b.asks[j].price)
            && (forall i :: 0 <= i < |b.bids| ==>
                  b.bids[i].side == Buy && 0 < b.bids[i].remaining <= b.bids[i].quantity)
            && (forall i :: 0 <= i < |b.asks| ==>
                  b.asks[i].side == Sell && 0 < b.asks[i].remaining <= b.asks[i].quantity)
  {
    Runs.RunKeepsInv(m, EMPTY_BOOK, ops);
  }

  // ---------- Whole runs ----------

  lemma {:induction false} RunOfSnoc(m: Machine, book: Book, ops: seq<Runs.Op>, op: Runs.Op)
    ensures var r := Runs.RunOf(m, book, ops);
            var s := Runs.StepOf(r.machine, r.book, op);
            Runs.RunOf(m, book, ops + [op]) == Runs.Run(Runs.After(r.machine, r.book, op), s.book, r.events + [s.event])
    decreases |ops|
  {
    hide Runs.StepOf, Runs.After;
    if ops == [] {
      assert Runs.RunOf(Runs.After(m, book, op), Runs.StepOf(m, book, op).book, []).events == [];
      assert ops + [op] == [op];
    } else {
      RunOfSnoc(Runs.After(m, book, ops[0]), Runs.StepOf(m, book, ops[0]).book, ops[1..], op);
      assert (ops + [op])[1..] == ops[1..] + [op];
    }
  }

  lemma {:induction false} FitsAt(m: Machine, book: Book, ops: seq<Runs.Op>, i: nat)
    requires Runs.RunFits(m, book, ops) && i < |ops|
    ensures Runs.Fits(Runs.RunOf(m, book, ops[..i]).book, ops[i])
    decreases |ops|
  {
    hide Runs.StepOf, Runs.After, Runs.Fits;
    if i > 0 {
      FitsAt(Runs.After(m, book, ops[0]), Runs.StepOf(m, book, ops[0]).book, ops[1..], i - 1);
      assert ops[..i][1..] == ops[1..][..i - 1];
    }
  }

  /** An engine goes from one state of a run to the next by the rules, and adds one event. */
  ghost predicate StepRules(r: Runs.Run, op: Runs.Op, r': Runs.Run) {
    && |r'.events| == |r.events| + 1 && r'.events[..|r.events|] == r.events
    && var a := Answer(r'.machine, r'.book, r'.events[|r.events|]);
    match op
    case Submit(o) => OrderRules(r.machine, r.book, o, a)
    case CancelId(id) => CancelRules(r.machine, r.book, id, a)
  }

  /** Every step of every run, on either engine, is by the rules. */
  lemma RunsByTheRules(m: Machine, ops: seq<Runs.Op>, i: nat)
    requires Runs.RunFits(m, EMPTY_BOOK, ops) && i < |ops|
    ensures StepRules(Runs.RunOf(m, EMPTY_BOOK, ops[..i]), ops[i], Runs.RunOf(m, EMPTY_BOOK, ops[..i + 1]))
  {
    var r := Runs.RunOf(m, EMPTY_BOOK, ops[..i]);
    RunOfSnoc(m, EMPTY_BOOK, ops[..i], ops[i]);
    FitsAt(m, EMPTY_BOOK, ops, i);
    Runs.RunKeepsInv(m, EMPTY_BOOK, ops[..i]);
    assert ops[..i + 1] == ops[..i] + [ops[i]];
    hide Runs.RunOf, OrderRules, CancelRules, Inv, Process, Next, Cancel, Released;
    match ops[i]
    case Submit(o) => ProcessByTheRules(r.machine, r.book, o);
    case CancelId(id) => CancelByTheRules(r.machine, r.book, id);
  }
}
