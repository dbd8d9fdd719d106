/**
 Both engines side by side over the same operations. Their events are those of
 the two pure runs, so they agree at every step exactly if no step diverges.
 */
module Differential {
  import opened Types
  import opened BookSpec
  import opened Runs
  import opened RefLevels
  import opened OrderStore
  import opened Engine
  import opened Reference
  import Rules

  // The range of the `int` parameter of the engine's constructor.
  const INT32_MAX := 0x7FFF_FFFF

  /** The reference's price checks pass: positive asks, bids below the limit. */
  ghost predicate PricesPass(r: ReferenceEngine)
    reads r
  {
    (forall p :: p in Prices(r.asks) ==> p > 0) && (forall p :: p in Prices(r.bids) ==> p < INT64_MAX)
  }

  /** An order that comes to rest in the reference does so at a positive price below the bound. */
  predicate RestsBelow(book: Book, op: Op, bound: int) {
    op.Submit? && Rests(Reference, book, op.order) ==> 0 < op.order.price < bound
  }

  /** One operation on the fast engine. */
  method FastApply(e: MatchingEngine, op: Op) returns (ev: MatchEvent)
    requires e.Valid() && Fits(e.Book(), op)
    modifies e`orderMap, e`Ids, e`Strays, e`Lost, e.pool`freeHead, e.pool`Free, e.pool`Live, e.pool.slots
    modifies e.bids`View, e.bids`Orders, e.bids.levels, e.bids.occupied`Members, e.bids.occupied.data
    modifies e.asks`View, e.asks`Orders, e.asks.levels, e.asks.occupied`Members, e.asks.occupied.data
    ensures e.Valid() && Step(e.Book(), ev) == StepOf(old(e.Kind()), old(e.Book()), op)
    ensures e.Kind() == After(old(e.Kind()), old(e.Book()), op)
  {
    hide MatchingEngine.Valid, MatchingEngine.HoldingsFollow, MatchingEngine.Holdings, Process, Next, Cancel, Released;
    hide Rules.OrderRules, Rules.CancelRules;
    match op
    case Submit(o) => ev := e.ProcessOrder(o);
    case CancelId(id) => ev := e.CancelOrder(id);
  }

  /** One operation on the reference engine: it has no limits. */
  method RefApply(r: ReferenceEngine, op: Op) returns (ev: MatchEvent)
    requires r.Valid()
    modifies r, r.cells.Keys
    ensures r.Valid() && Step(r.Book(), ev) == StepOf(Reference, old(r.Book()), op)
    ensures fresh(r.cells.Keys - old(r.cells.Keys))
    ensures old(PricesPass(r)) && RestsBelow(old(r.Book()), op, INT64_MAX) ==> PricesPass(r)
  {
    hide ReferenceEngine.Valid, Process, Cancel, Prices, Rests, LiveBook, Rules.OrderRules, Rules.CancelRules;
    match op
    case Submit(o) => ev := r.ProcessOrder(o);
    case CancelId(id) => ev := r.CancelOrder(id);
  }

  /** The executable checks of both engines. */
  method CheckBoth(e: MatchingEngine, r: ReferenceEngine) returns (ok: bool)
    requires e.Valid() && r.Valid()
    ensures ok <==> AllShelved(e.Kind(), e.Book()) && PricesPass(r)
  {
    hide MatchingEngine.Valid, MatchingEngine.Passes, ReferenceEngine.Valid, ReferenceEngine.Passes, AllShelved;
    e.ValidPasses();
    r.ValidPasses();
    var fastOk := e.VerifyInvariants();
    var slowOk := r.VerifyInvariants();
    ok := fastOk && slowOk;
  }

  /** One operation on both engines. */
  method StepBoth(e: MatchingEngine, r: ReferenceEngine, op: Op)
    returns (fast: MatchEvent, slow: MatchEvent)
    requires e.Valid() && r.Valid() && e.bids.maxLevels <= INT32_MAX
    requires Fits(e.Book(), op)
    modifies e`orderMap, e`Ids, e`Strays, e`Lost, e.pool`freeHead, e.pool`Free, e.pool`Live, e.pool.slots
    modifies e.bids`View, e.bids`Orders, e.bids.levels, e.bids.occupied`Members, e.bids.occupied.data
    modifies e.asks`View, e.asks`Orders, e.asks.levels, e.asks.occupied`Members, e.asks.occupied.data
    modifies r, r.cells.Keys
    ensures e.Valid() && r.Valid() && fresh(r.cells.Keys - old(r.cells.Keys))
    ensures Step(e.Book(), fast) == StepOf(old(e.Kind()), old(e.Book()), op)
    ensures e.Kind() == After(old(e.Kind()), old(e.Book()), op)
    ensures Step(r.Book(), slow) == StepOf(Reference, old(r.Book()), op)
    ensures old(PricesPass(r)) && RestsBelow(old(r.Book()), op, e.bids.maxLevels) ==> PricesPass(r)
  {
    hide MatchingEngine.Valid, ReferenceEngine.Valid, StepOf, After, LiveBook, Prices, Rests, Fits, RestsBelow;
    RestsBelowMore(r.Book(), op, e.bids.maxLevels, INT64_MAX);
    fast := FastApply(e, op);
    slow := RefApply(r, op);
  }

  lemma RestsBelowMore(book: Book, op: Op, bound: int, more: int)
    requires bound <= more
    ensures RestsBelow(book, op, bound) ==> RestsBelow(book, op, more)
  {
  }

  /** The machine that an engine built with these numbers is. */
  function KindOf(maxPriceLevels: int, poolCapacity: nat): Machine {
    Fast(if poolCapacity <= UINT32_MAX then poolCapacity else UINT32_MAX,
         if maxPriceLevels > 0 then maxPriceLevels else DEFAULT_MAX_LEVELS, [])
  }

  lemma NextEvent(m: Machine, book: Book, ops: seq<Op>, i: nat, done: seq<MatchEvent>)
    requires i < |ops|
    ensures var s := StepOf(m, book, ops[i]);
            done + RunOf(m, book, ops[i..]).events
            == (done + [s.event]) + RunOf(After(m, book, ops[i]), s.book, ops[i + 1..]).events
  {
    hide StepOf, After;
    assert ops[i..][1..] == ops[i + 1..];
  }

  lemma NextFits(m: Machine, book: Book, ops: seq<Op>, i: nat)
    requires i < |ops| && RunFits(m, book, ops[i..])
    ensures Fits(book, ops[i])
    ensures RunFits(After(m, book, ops[i]), StepOf(m, book, ops[i]).book, ops[i + 1..])
  {
    hide Fits, StepOf, After;
    assert ops[i..][0] == ops[i] && ops[i..][1..] == ops[i + 1..];
  }

  /** In an agreeable run the next step does the same in both engines, and rests only at a price of the ladder. */
  lemma NextAgrees(m: Machine, book: Book, ops: seq<Op>, i: nat)
    requires i < |ops| && m.Fast? && Agreeable(m, book, ops[i..])
    ensures StepOf(m, book, ops[i]) == StepOf(Reference, book, ops[i]) && After(m, book, ops[i]) == m
    ensures Agreeable(m, StepOf(m, book, ops[i]).book, ops[i + 1..])
    ensures RestsBelow(book, ops[i], m.levels) && !(ops[i].Submit? && Misfiles(m, book, ops[i].order))
  {
    StepsAgree(m, book, ops[i]);
    assert ops[i..][0] == ops[i] && ops[i..][1..] == ops[i + 1..];
    assert After(m, book, ops[i]) == m;
    hide StepOf, After;
  }

  /**
   While the checks pass no order is lost, and the rest of the run misfiles none
   exactly if this step and those after it do not.
   */
  lemma NextMisfiles(m: Machine, book: Book, ops: seq<Op>, i: nat)
    requires i < |ops| && m.Fast? && m.lost == [] && AllShelved(m, book)
    ensures var m', book' := After(m, book, ops[i]), StepOf(m, book, ops[i]).book;
            && (AllShelved(m', book') <==> !(ops[i].Submit? && Misfiles(m, book, ops[i].order)))
            && (AllShelved(m', book') ==>
                  m' == m && (NoneMisfiled(m, book, ops[i..]) <==> NoneMisfiled(m', book', ops[i + 1..])))
  {
    StepKeepsShelved(m, book, ops[i]);
    assert ops[i..][0] == ops[i] && ops[i..][1..] == ops[i + 1..];
    assert !(ops[i].Submit? && Misfiles(m, book, ops[i].order)) ==> After(m, book, ops[i]) == m;
    hide StepOf, After, Misfiles, AllShelved;
  }

  /**
   Where both engines are after `i` operations: what the pure runs still owe, what
   the checks have told so far, and what an agreeable run keeps.
   */
  ghost predicate Along(m: Machine, ops: seq<Op>, i: nat, kind: Machine, fastBook: Book, slowBook: Book,
                        fast: seq<MatchEvent>, slow: seq<MatchEvent>, priced: bool, verified: bool) {
    && i <= |ops| && kind.Fast?
    && fast + RunOf(kind, fastBook, ops[i..]).events == RunOf(m, EMPTY_BOOK, ops).events
    && slow + RunOf(Reference, slowBook, ops[i..]).events == RunOf(Reference, EMPTY_BOOK, ops).events
    && RunFits(kind, fastBook, ops[i..])
    && (verified ==>
          && kind.lost == [] && AllShelved(kind, fastBook)
          && (NoneMisfiled(m, EMPTY_BOOK, ops) <==> NoneMisfiled(kind, fastBook, ops[i..])))
    && (Agreeable(m, EMPTY_BOOK, ops) ==>
          Agreeable(kind, fastBook, ops[i..]) && fastBook == slowBook && priced && verified)
  }

  lemma AlongStarts(m: Machine, ops: seq<Op>)
    requires m.Fast? && m.lost == [] && RunFits(m, EMPTY_BOOK, ops)
    ensures Along(m, ops, 0, m, EMPTY_BOOK, EMPTY_BOOK, [], [], true, true)
  {
    assert ops[0..] == ops;
    hide RunOf, RunFits, NoneMisfiled, Agreeable;
  }

  lemma AlongNext(m: Machine, ops: seq<Op>, i: nat, kind: Machine, fastBook: Book, slowBook: Book,
                  fast: seq<MatchEvent>, slow: seq<MatchEvent>, priced: bool, verified: bool, priced': bool)
    requires Along(m, ops, i, kind, fastBook, slowBook, fast, slow, priced, verified) && i < |ops|
    requires priced && RestsBelow(slowBook, ops[i], kind.levels) ==> priced'
    ensures var kind', s, t := After(kind, fastBook, ops[i]), StepOf(kind, fastBook, ops[i]),
                               StepOf(Reference, slowBook, ops[i]);
            && kind'.Fast?
            && Along(m, ops, i + 1, kind', s.book, t.book, fast + [s.event], slow + [t.event], priced',
                     verified && AllShelved(kind', s.book) && priced')
  {
    hide StepOf, After, Fits, RunFits, RunOf, Agreeable, NoneMisfiled, RestsBelow, AllShelved, Misfiles;
    StaysFast(kind, fastBook, ops[i]);
    NextEvent(kind, fastBook, ops, i, fast);
    NextEvent(Reference, slowBook, ops, i, slow);
    ReferenceStays(slowBook, ops[i]);
    NextFits(kind, fastBook, ops, i);
    if verified {
      NextMisfiles(kind, fastBook, ops, i);
    }
    if Agreeable(m, EMPTY_BOOK, ops) {
      NextAgrees(kind, fastBook, ops, i);
    }
  }

  lemma AlongFits(m: Machine, ops: seq<Op>, i: nat, kind: Machine, fastBook: Book, slowBook: Book,
                  fast: seq<MatchEvent>, slow: seq<MatchEvent>, priced: bool, verified: bool)
    requires Along(m, ops, i, kind, fastBook, slowBook, fast, slow, priced, verified) && i < |ops|
    ensures Fits(fastBook, ops[i])
  {
    hide RunOf, RunFits, NoneMisfiled, Agreeable;
    NextFits(kind, fastBook, ops, i);
  }

  lemma StaysFast(m: Machine, book: Book, op: Op)
    ensures m.Fast? ==> After(m, book, op).Fast?
  {
  }

  /** At the end, equal events and successful checks mean that no step diverged, and the other way round. */
  lemma AlongEnds(m: Machine, ops: seq<Op>, kind: Machine, fastBook: Book, slowBook: Book,
                  fast: seq<MatchEvent>, slow: seq<MatchEvent>, priced: bool, verified: bool)
    requires Along(m, ops, |ops|, kind, fastBook, slowBook, fast, slow, priced, verified) && m.Fast? && m.lost == []
    ensures fast == RunOf(m, EMPTY_BOOK, ops).events && slow == RunOf(Reference, EMPTY_BOOK, ops).events
    ensures fast == slow && verified <==> Agreeable(m, EMPTY_BOOK, ops)
  {
    NoMoreEvents(kind, fastBook, ops, fast);
    NoMoreEvents(Reference, slowBook, ops, slow);
    RunsAgreeIff(m, EMPTY_BOOK, ops);
    if verified {
      EventsAgreeIff(m, EMPTY_BOOK, ops);
    }
    hide RunOf, RunFits, NoneMisfiled, Agreeable;
  }

  /**
   Feeds the operations to both engines, compares their events and calls the
   checks of both after every step. All of this succeeds exactly if no step
   diverges, whether or not ids are reused.
   */
  method RunBoth(ops: seq<Op>, maxPriceLevels: int, poolCapacity: nat)
    returns (fast: seq<MatchEvent>, slow: seq<MatchEvent>, agree: bool, verified: bool)
    requires 1 <= poolCapacity && maxPriceLevels <= INT32_MAX
    requires RunFits(KindOf(maxPriceLevels, poolCapacity), EMPTY_BOOK, ops)
    ensures fast == RunOf(KindOf(maxPriceLevels, poolCapacity), EMPTY_BOOK, ops).events
    ensures slow == RunOf(Reference, EMPTY_BOOK, ops).events
    ensures agree <==> fast == slow
    ensures agree && verified <==> Agreeable(KindOf(maxPriceLevels, poolCapacity), EMPTY_BOOK, ops)
  {
    hide *;
    ghost var m := KindOf(maxPriceLevels, poolCapacity);
    var e := new MatchingEngine(maxPriceLevels, poolCapacity);
    var r := new ReferenceEngine();
    fast, slow, verified := [], [], true;
    NewKind(e, maxPriceLevels, poolCapacity);
    NothingPriced(r);
    AlongStarts(m, ops);
    var i := 0;
    while i < |ops|
      invariant 0 <= i <= |ops|
      invariant e.Valid() && r.Valid() && fresh(r.cells.Keys)
      invariant Along(m, ops, i, e.Kind(), e.Book(), r.Book(), fast, slow, PricesPass(r), verified)
    {
      ghost var kind, fastBook, slowBook := e.Kind(), e.Book(), r.Book();
      ghost var priced, fast0, slow0, verified0 := PricesPass(r), fast, slow, verified;
      KindLevels(e);
      AlongFits(m, ops, i, kind, fastBook, slowBook, fast, slow, priced, verified);
      var fastEvent, slowEvent := StepBoth(e, r, ops[i]);
      var ok := CheckBoth(e, r);
      fast, slow, verified := fast + [fastEvent], slow + [slowEvent], verified && ok;
      AlongNext(m, ops, i, kind, fastBook, slowBook, fast0, slow0, priced, verified0, PricesPass(r));
      i := i + 1;
    }
    KindLevels(e);
    AlongEnds(m, ops, e.Kind(), e.Book(), r.Book(), fast, slow, PricesPass(r), verified);
    agree := fast == slow;
  }

  lemma NothingPriced(r: ReferenceEngine)
    requires r.bids == [] && r.asks == []
    ensures PricesPass(r)
  {
  }

  lemma NoMoreEvents(m: Machine, book: Book, ops: seq<Op>, done: seq<MatchEvent>)
    ensures done + RunOf(m, book, ops[|ops|..]).events == done && NoneMisfiled(m, book, ops[|ops|..])
  {
  }

  /**
   While the books agree, so do the resting quantities at every price. The best
   prices of the reference are at least as good, and the same exactly if its
   first levels hold live orders.
   */
  method CompareTops(e: MatchingEngine, r: ReferenceEngine, side: Side, price: Price)
    returns (fast: Quantity, slow: Quantity, fastBid: Price, slowBid: Price, fastAsk: Price, slowAsk: Price)
    requires e.Valid() && r.Valid() && e.Book() == r.Book()
    ensures fast == slow == TotalAt(e.Book().Queue(side), price)
    ensures e.Book().bids != [] ==> fastBid <= slowBid
    ensures e.Book().asks != [] ==> slowAsk <= fastAsk
    ensures slowBid == fastBid <==> r.BestIsLive(r.bids)
    ensures slowAsk == fastAsk <==> r.BestIsLive(r.asks)
  {
    hide MatchingEngine.Valid, ReferenceEngine.Valid, LiveBook, TotalAt;
    fast := e.RestingQuantity(side, price);
    slow := r.RestingQuantity(side, price);
    fastBid := e.BestBid();
    slowBid := r.BestBid();
    fastAsk := e.BestAsk();
    slowAsk := r.BestAsk();
  }

  /** A bid at 100 rests and is cancelled: the fast engine quotes nothing any more. */
  method FastQuoteAfterCancel(maxPriceLevels: int, poolCapacity: nat) returns (quote: Price, quantity: Quantity)
    requires 1 <= poolCapacity && KindOf(maxPriceLevels, poolCapacity).levels > 100
    ensures quote == 0 && quantity == 0
  {
    hide *;
    var e := new MatchingEngine(maxPriceLevels, poolCapacity);
    var bid := IncomingOrder(1, Buy, Limit, 100, 5, 1);
    NewKind(e, maxPriceLevels, poolCapacity);
    RoomAtFirst(e.Kind());
    RestingBid(e.Kind(), bid);
    NothingQuoted();
    var _ := e.ProcessOrder(bid);
    var _ := e.CancelOrder(1);
    quote := e.BestBid();
    quantity := e.RestingQuantity(Buy, 100);
  }

  lemma RoomAtFirst(m: Machine)
    requires m.Fast? && m.capacity > 0 && m.lost == []
    ensures m.HasRoom(EMPTY_BOOK) && (m.levels > 100 ==> m.HasLevel(100))
  {
  }

  lemma NothingQuoted()
    ensures EMPTY_BOOK.bids == [] && BestPrice([]) == 0 && TotalAt(EMPTY_BOOK.Queue(Buy), 100) == 0
  {
  }

  /** The reference still quotes the cancelled bid, with nothing behind it. */
  method RefQuoteAfterCancel() returns (quote: Price, quantity: Quantity)
    ensures quote == 100 && quantity == 0
  {
    hide ReferenceEngine.Valid, Process, Cancel, Rests, LiveBook;
    var r := new ReferenceEngine();
    var bid := IncomingOrder(1, Buy, Limit, 100, 5, 1);
    RestingBid(Reference, bid);
    var _ := r.ProcessOrder(bid);
    RestingHasLevel(r);
    var _ := r.CancelOrder(1);
    quote := r.BestBid();
    quantity := r.RestingQuantity(Buy, 100);
  }

  lemma RestingBid(m: Machine, bid: IncomingOrder)
    requires bid == IncomingOrder(1, Buy, Limit, 100, 5, 1) && m.HasRoom(EMPTY_BOOK) && m.HasLevel(100)
    ensures var rested := Book([EntryOf(bid, 5)], [], map[1 := Shelf(Buy, 100)]);
            && Process(m, EMPTY_BOOK, bid).book == rested && Cancel(m, rested, 1).book == EMPTY_BOOK
            && Cancellable(rested, 1)
    ensures Rests(m, EMPTY_BOOK, bid) && Next(m, EMPTY_BOOK, bid) == m
  {
    NothingErased(EMPTY_BOOK, bid);
    assert RemoveAt([EntryOf(bid, 5)], 0) == [];
    assert map[1 := Shelf(Buy, 100)] - {1} == map[];
  }

  /** An order that rests at one price only leaves a first level at that price. */
  lemma RestingHasLevel(r: ReferenceEngine)
    requires r.Book().bids != [] && Prices(r.bids) <= {100}
    ensures r.bids != [] && r.bids[0].price == 100
  {
    assert r.bids[0].price in Prices(r.bids);
  }

  /**
   A buy of 5 priced one beyond the ladder, then a market sell of 5, then a cancel
   of the buy: it is reported Resting and fails the engine's own check, the sell
   finds nobody, and the cancel reports all 5 as never filled.
   */
  method OutOfRangeOrder(maxPriceLevels: int, poolCapacity: nat)
    returns (resting: MatchEvent, checked: bool, sold: MatchEvent, cancelled: MatchEvent)
    requires 1 <= poolCapacity
    ensures var price := KindOf(maxPriceLevels, poolCapacity).levels;
            && resting == MatchEvent([], [Report(1, Resting, Buy, price, 0, 5)])
            && !checked
            && sold == MatchEvent([], [Report(2, Cancelled, Sell, 0, 0, 5)])
            && cancelled == MatchEvent([], [Report(1, Cancelled, Buy, price, 0, 5)])
  {
    hide *;
    var e := new MatchingEngine(maxPriceLevels, poolCapacity);
    var price := e.bids.maxLevels;
    var buy := IncomingOrder(1, Buy, Limit, price, 5, 1);
    var sell := IncomingOrder(2, Sell, Market, 0, 5, 2);
    NewKind(e, maxPriceLevels, poolCapacity);
    LostBuySteps(e.Kind(), buy, sell);
    resting := e.ProcessOrder(buy);
    e.ValidPasses();
    checked := e.VerifyInvariants();
    sold := e.ProcessOrder(sell);
    cancelled := e.CancelOrder(1);
  }

  lemma KindLevels(e: MatchingEngine)
    ensures e.Kind().Fast? && e.Kind().levels == e.bids.maxLevels
  {
  }

  lemma NewKind(e: MatchingEngine, maxPriceLevels: int, poolCapacity: nat)
    requires 1 <= poolCapacity == e.pool.capacity && e.Lost == []
    requires e.bids.maxLevels == if maxPriceLevels > 0 then maxPriceLevels else DEFAULT_MAX_LEVELS
    ensures e.Kind() == KindOf(maxPriceLevels, poolCapacity)
    ensures e.Kind().Fast? && e.Kind().capacity > 0 && 0 < e.Kind().levels == e.bids.maxLevels && e.Kind().lost == []
    ensures maxPriceLevels <= INT32_MAX ==> e.bids.maxLevels <= INT32_MAX
  {
  }

  /** The three steps as the specification has them. */
  lemma LostBuySteps(m: Machine, buy: IncomingOrder, sell: IncomingOrder)
    requires m.Fast? && m.capacity > 0 && m.levels > 0 && m.lost == []
    requires buy == IncomingOrder(1, Buy, Limit, m.levels, 5, 1) && sell == IncomingOrder(2, Sell, Market, 0, 5, 2)
    ensures var m', book := m.(lost := [StrayOf(buy, 5)]), Book([], [], map[1 := Shelf(Buy, m.levels)]);
            && Process(m, EMPTY_BOOK, buy) == Step(book, MatchEvent([], [Report(1, Resting, Buy, m.levels, 0, 5)]))
            && Next(m, EMPTY_BOOK, buy) == m' && !AllShelved(m', book)
            && Process(m', book, sell) == Step(book, MatchEvent([], [Report(2, Cancelled, Sell, 0, 0, 5)]))
            && Next(m', book, sell) == m' && Cancellable(book, 1)
            && Cancel(m', book, 1).event == MatchEvent([], [Report(1, Cancelled, Buy, m.levels, 0, 5)])
  {
    LosesBuy(m.capacity, m.levels, buy);
    FindsNobody(m.capacity, m.levels, buy, sell);
    hide Process, Next;
    assert 1 in map[1 := Shelf(Buy, m.levels)];
  }
}
