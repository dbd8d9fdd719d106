/**
 The reference engine: ordered maps from prices to lists of orders, where a
 cancel only overwrites a status and a later match purges the tombstone. Its
 live part refines the same book as the fast engine.
 */
module Reference {
  import opened Types
  import opened BookSpec
  import opened BookLaws
  import opened RefLevels
  import Rules

  const INT64_MAX := 0x7FFF_FFFF_FFFF_FFFF

  class ReferenceEngine {
    // The entries of the ordered maps, best price first.
    var bids: seq<RefLevel>
    var asks: seq<RefLevel>
    var orderMap: map<OrderID, RefOrder>
    // What the cells in the lists hold.
    ghost var cells: Cells

    function Lists(): RefBook
      reads this`bids, this`asks
    {
      RefBook(bids, asks)
    }

    function Levels(side: Side): seq<RefLevel>
      reads this`bids, this`asks
    {
      Lists().Levels(side)
    }

    /** The live orders as a book: tombstones do not count. */
    ghost function Book(): Book
      reads this
    {
      LiveBook(Lists(), orderMap, cells)
    }

    ghost predicate Recorded()
      reads this`cells, cells.Keys
    {
      forall o :: o in cells ==> cells[o] == o.Value()
    }

    /** Everything that also holds while a level is being swept. */
    ghost predicate Consistent()
      reads this, cells.Keys
    {
      Recorded() && RefOk(Lists(), orderMap, cells)
    }

    ghost predicate Valid()
      reads this, cells.Keys
    {
      Consistent() && NoneEmpty(bids) && NoneEmpty(asks)
    }

    constructor ()
      ensures Valid() && fresh(cells.Keys)
      ensures Book() == EMPTY_BOOK && orderMap == map[] && bids == [] && asks == []
    {
      bids, asks, orderMap, cells := [], [], map[], map[];
    }

    method SetLevels(side: Side, ls: seq<RefLevel>)
      modifies this`bids, this`asks
      ensures Lists() == old(Lists()).With(side, ls)
    {
      if side.Buy? {
        bids := ls;
      } else {
        asks := ls;
      }
    }

    /** Erases the front order of the first level from its list. */
    method EraseFront(side: Side)
      requires Levels(side) != [] && Levels(side)[0].orders != []
      modifies this`bids, this`asks, this`cells
      ensures Lists() == old(Lists()).With(side, Dropped(old(Levels(side))))
      ensures cells == old(cells) - {old(Levels(side)[0].orders[0])}
    {
      var ls := Levels(side);
      cells := cells - {ls[0].orders[0]};
      SetLevels(side, ls[0 := RefLevel(ls[0].price, ls[0].orders[1..])]);
    }

    /** Purges a tombstone from the front of the first level: the live book does not change. */
    method Purge(side: Side)
      requires Consistent() && Levels(side) != [] && Levels(side)[0].orders != []
      requires !Levels(side)[0].orders[0].Value().IsLive()
      modifies this`bids, this`asks, this`cells
      ensures Consistent() && Book() == old(Book())
      ensures Lists() == old(Lists()).With(side, Dropped(old(Levels(side))))
      ensures cells.Keys <= old(cells.Keys) && orderMap == old(orderMap)
    {
      hide RefOk, LiveQueue;
      DropKeeps(Lists(), orderMap, cells, side);
      EraseFront(side);
    }

    /** One fill against the front order of the first level, which is live. */
    method FillFront(side: Side, order: IncomingOrder, left0: Quantity, ev0: MatchEvent, ghost ids: map<OrderID, Place>)
      returns (left: Quantity, ev: MatchEvent, gone: bool)
      requires Consistent() && Book().ids == ids - ReportedIds(ev0.reports)
      requires Levels(side) != [] && Levels(side)[0].orders != []
      requires Levels(side)[0].orders[0].Value().IsLive()
      requires left0 > 0 && side == order.side.Opposite()
      modifies this, Levels(side)[0].orders[0]
      ensures Consistent()
      ensures Lists() == if gone then old(Lists()).With(side, Dropped(old(Levels(side)))) else old(Lists())
      ensures old(Book()).Queue(side) != []
      ensures var f := Fill(order, left0, old(Book()).Queue(side), ev0);
              && left == f.left && ev == f.event
              && Book() == old(Book()).With(side, f.queue).(ids := ids - ReportedIds(ev.reports))
      ensures Rules.FillRules(order, left0, old(Book()).Queue(side)[0], ev0, left, ev)
      ensures 0 <= left < left0 && (gone || left == 0)
      ensures cells.Keys <= old(cells.Keys)
    {
      hide RefOk, Inv, Rules.FillRules;
      var resting := Levels(side)[0].orders[0];
      FrontIsSound(Lists(), orderMap, cells, side);
      Rules.FillByTheRules(order, left0, Book().Queue(side), ev0);
      var fill := Min(left0, resting.remaining);
      if order.side.Buy? {
        ev := AddTrade(ev0, Trade(order.id, resting.id, resting.price, fill, order.timestamp));
      } else {
        ev := AddTrade(ev0, Trade(resting.id, order.id, resting.price, fill, order.timestamp));
      }
      left := left0 - fill;
      DropKeeps(Lists(), orderMap, cells, side);
      if fill < resting.remaining {
        ReduceKeeps(Lists(), orderMap, cells, side, fill);
      }
      resting.remaining := resting.remaining - fill;
      if resting.remaining == 0 {
        resting.status := Filled;
        orderMap := orderMap - {resting.id};
        OneMoreReported(ids, ev.reports, Report(resting.id, Filled, side, resting.price, resting.quantity, 0));
        ev := AddReport(ev, Report(resting.id, Filled, side, resting.price, resting.quantity, 0));
        EraseFront(side);
        gone := true;
      } else {
        resting.status := PartiallyFilled;
        cells := cells[resting := resting.Value()];
        gone := false;
      }
    }

    /** Walks the first level from its front, purging tombstones and filling live orders. */
    method SweepLevel(side: Side, order: IncomingOrder, left0: Quantity, ev0: MatchEvent,
                      ghost ids: map<OrderID, Place>)
      returns (left: Quantity, ev: MatchEvent)
      requires Consistent() && Book().ids == ids - ReportedIds(ev0.reports)
      requires left0 > 0 && side == order.side.Opposite()
      requires Levels(side) != [] && Crosses(order, Levels(side)[0].price)
      modifies this, cells.Keys
      ensures Consistent() && 0 <= left <= left0
      ensures Levels(order.side) == old(Levels(order.side)) && Book().Queue(order.side) == old(Book()).Queue(order.side)
      ensures Levels(side) != [] && Levels(side)[0].price == old(Levels(side)[0].price)
      ensures Levels(side)[1..] == old(Levels(side))[1..]
      ensures left == 0 || Levels(side)[0].orders == []
      ensures Book().ids == ids - ReportedIds(ev.reports)
      ensures Match(order, left, Book().Queue(side), ev) == Match(order, left0, old(Book()).Queue(side), ev0)
      ensures cells.Keys <= old(cells.Keys)
    {
      hide RefOk, Inv, SoundQueue;
      left, ev := left0, ev0;
      var j := 0;
      while j < |Levels(side)[0].orders| && left > 0
        invariant Consistent() && 0 <= left <= left0 && (left > 0 ==> j == 0)
        invariant Levels(order.side) == old(Levels(order.side))
        invariant Book().Queue(order.side) == old(Book()).Queue(order.side)
        invariant Levels(side) != [] && Levels(side)[0].price == old(Levels(side)[0].price)
        invariant Levels(side)[1..] == old(Levels(side))[1..]
        invariant Book().ids == ids - ReportedIds(ev.reports)
        invariant Match(order, left, Book().Queue(side), ev) == Match(order, left0, old(Book()).Queue(side), ev0)
        invariant cells.Keys <= old(cells.Keys)
        decreases |Levels(side)[0].orders| - j
      {
        var resting := Levels(side)[0].orders[j];
        FrontIsSound(Lists(), orderMap, cells, side);
        DropKeeps(Lists(), orderMap, cells, side);
        if resting.status == Filled || resting.status == Cancelled {
          Purge(side);
        } else {
          var gone: bool;
          left, ev, gone := FillFront(side, order, left, ev, ids);
          if !gone {
            j := j + 1;
          }
        }
      }
    }

    /** Sweeps the first level, and erases it if nothing is left in it. */
    method ConsumeLevel(side: Side, order: IncomingOrder, left0: Quantity, ev0: MatchEvent,
                        ghost ids: map<OrderID, Place>)
      returns (left: Quantity, ev: MatchEvent, erased: bool)
      requires Valid() && Book().ids == ids - ReportedIds(ev0.reports)
      requires left0 > 0 && side == order.side.Opposite()
      requires Levels(side) != [] && Crosses(order, Levels(side)[0].price)
      modifies this, cells.Keys
      ensures Valid() && 0 <= left <= left0 && (erased || left == 0)
      ensures Book().Queue(order.side) == old(Book()).Queue(order.side)
      ensures Book().ids == ids - ReportedIds(ev.reports)
      ensures |Levels(side)| == old(|Levels(side)|) - if erased then 1 else 0
      ensures Levels(order.side) == old(Levels(order.side)) && Prices(Levels(side)) <= old(Prices(Levels(side)))
      ensures Match(order, left, Book().Queue(side), ev) == Match(order, left0, old(Book()).Queue(side), ev0)
      ensures cells.Keys <= old(cells.Keys)
    {
      hide RefOk, Inv, Match, LiveQueue, Prices;
      ghost var tail := Levels(side)[1..];
      left, ev := SweepLevel(side, order, left0, ev0, ids);
      SweptPrices(old(Levels(side)), Levels(side));
      erased := Levels(side)[0].orders == [];
      assert NoneEmpty(tail) by {
        assert forall i :: 0 <= i < |tail| ==> tail[i] == old(Levels(side))[i + 1];
      }
      if erased {
        EmptyLevelGone(Lists(), orderMap, cells, side);
        SetLevels(side, Levels(side)[1..]);
      } else {
        assert forall i :: 0 < i < |Levels(side)| ==> Levels(side)[i] == tail[i - 1];
      }
      assert NoneEmpty(Levels(side)) && NoneEmpty(Levels(order.side));
    }

    /** Matches a buy order against the asks, lowest price first; exhausted levels are erased. */
    method MatchBuy(order: IncomingOrder) returns (left: Quantity, ev: MatchEvent)
      requires Valid() && order.side.Buy? && order.quantity > 0
      modifies this, cells.Keys
      ensures Valid() && 0 <= left <= order.quantity
      ensures Book() == Swept(old(Book()), order)
      ensures left == MatchIn(old(Book()), order).left && ev == MatchIn(old(Book()), order).event
      ensures Rules.SweepRules(order, order.quantity, old(Book()).asks, Outcome(Book().asks, left, ev))
      ensures left > 0 ==> Refused(order, asks)
      ensures bids == old(bids) && Prices(asks) <= old(Prices(asks))
      ensures cells.Keys <= old(cells.Keys)
    {
      SweepByTheRules(order);
      hide RefOk, Inv, Refused, LiveQueue, NoneEmpty, Prices, Rules.SweepRules;
      left, ev := order.quantity, NO_EVENT;
      NothingReported(Book().ids);
      var i := 0;
      while i < |asks| && left > 0
        invariant Valid() && 0 <= left <= order.quantity && (left > 0 ==> i == 0)
        invariant Book().bids == old(Book()).bids
        invariant bids == old(bids) && Prices(asks) <= old(Prices(asks))
        invariant Match(order, left, Book().asks, ev) == MatchIn(old(Book()), order)
        invariant Book().ids == old(Book()).ids - ReportedIds(ev.reports)
        invariant cells.Keys <= old(cells.Keys)
        decreases |asks| - i
      {
        var crosses := order.otype.Market? || order.price >= asks[i].price;
        if !crosses {
          break;
        }
        var erased: bool;
        left, ev, erased := ConsumeLevel(Sell, order, left, ev, old(Book()).ids);
        if !erased {
          i := i + 1;
        }
      }
      if left > 0 {
        BestRefuses(Lists(), orderMap, cells, order, left, ev);
      }
    }

    /** Matches a sell order against the bids, highest price first; exhausted levels are erased. */
    method MatchSell(order: IncomingOrder) returns (left: Quantity, ev: MatchEvent)
      requires Valid() && order.side.Sell? && order.quantity > 0
      modifies this, cells.Keys
      ensures Valid() && 0 <= left <= order.quantity
      ensures Book() == Swept(old(Book()), order)
      ensures left == MatchIn(old(Book()), order).left && ev == MatchIn(old(Book()), order).event
      ensures Rules.SweepRules(order, order.quantity, old(Book()).bids, Outcome(Book().bids, left, ev))
      ensures left > 0 ==> Refused(order, bids)
      ensures asks == old(asks) && Prices(bids) <= old(Prices(bids))
      ensures cells.Keys <= old(cells.Keys)
    {
      SweepByTheRules(order);
      hide RefOk, Inv, Refused, LiveQueue, NoneEmpty, Prices, Rules.SweepRules;
      left, ev := order.quantity, NO_EVENT;
      NothingReported(Book().ids);
      var i := 0;
      while i < |bids| && left > 0
        invariant Valid() && 0 <= left <= order.quantity && (left > 0 ==> i == 0)
        invariant Book().asks == old(Book()).asks
        invariant asks == old(asks) && Prices(bids) <= old(Prices(bids))
        invariant Match(order, left, Book().bids, ev) == MatchIn(old(Book()), order)
        invariant Book().ids == old(Book()).ids - ReportedIds(ev.reports)
        invariant cells.Keys <= old(cells.Keys)
        decreases |bids| - i
      {
        var crosses := order.otype.Market? || order.price <= bids[i].price;
        if !crosses {
          break;
        }
        var erased: bool;
        left, ev, erased := ConsumeLevel(Buy, order, left, ev, old(Book()).ids);
        if !erased {
          i := i + 1;
        }
      }
      if left > 0 {
        BestRefuses(Lists(), orderMap, cells, order, left, ev);
      }
    }

    /** Puts a new cell at the end of the list of its price and points the map at it. */
    method InsertOrder(order: IncomingOrder, left: Quantity)
      requires Valid() && order.otype.Limit? && 0 < left <= order.quantity
      requires Refused(order, Levels(order.side.Opposite()))
      modifies this
      ensures Valid() && Book() == Rest(old(Book()), order, left)
      ensures fresh(cells.Keys - old(cells.Keys))
      ensures Levels(order.side.Opposite()) == old(Levels(order.side.Opposite()))
      ensures Prices(Levels(order.side)) <= old(Prices(Levels(order.side))) + {order.price}
    {
      hide RefOk, Inv, Refused, NoneEmpty, PushBack, LiveBook, Prices;
      var o := new RefOrder(order, left);
      RestKeeps(Lists(), orderMap, cells, order, left, o);
      PushBackNonempty(order.side, Levels(order.side), order.price, o);
      PushedPrices(order.side, Levels(order.side), order.price, o);
      if order.side.Buy? {
        bids := PushBack(Buy, bids, order.price, o);
      } else {
        asks := PushBack(Sell, asks, order.price, o);
      }
      orderMap := orderMap[order.id := o];
      cells := cells[o := EntryOf(order, left)];
    }

    method ProcessOrder(order: IncomingOrder) returns (ev: MatchEvent)
      requires Valid()
      modifies this, cells.Keys
      ensures Valid() && Step(Book(), ev) == Process(Reference, old(Book()), order)
      ensures fresh(cells.Keys - old(cells.Keys))
      ensures Prices(Levels(order.side.Opposite())) <= old(Prices(Levels(order.side.Opposite())))
      ensures Prices(Levels(order.side)) <= old(Prices(Levels(order.side)))
                                           + if Rests(Reference, old(Book()), order) then {order.price} else {}
      ensures Rules.OrderRules(Reference, old(Book()), order, Rules.Answer(Reference, Book(), ev))
    {
      hide RefOk, Inv, LiveQueue, NoneEmpty, Prices, Rules.OrderRules, Rules.SweepRules;
      OrderByTheRules(order);
      if order.quantity <= 0 || order.id == 0 {
        ev := MatchEvent([], [Report(order.id, Cancelled, order.side, order.price, 0, order.quantity)]);
        return;
      }
      var left: Quantity;
      if order.side.Buy? {
        left, ev := MatchBuy(order);
      } else {
        left, ev := MatchSell(order);
      }
      var filled := order.quantity - left;
      var shouldRest := false;
      if left == 0 {
        ev := AddReport(ev, Report(order.id, Filled, order.side, order.price, order.quantity, 0));
      } else if filled > 0 {
        if order.otype.IOC? || order.otype.FOK? || order.otype.Market? {
          ev := AddReport(ev, Report(order.id, Cancelled, order.side, order.price, filled, left));
        } else {
          shouldRest := true;
        }
      } else {
        if order.otype.Market? || order.otype.IOC? || order.otype.FOK? {
          ev := AddReport(ev, Report(order.id, Cancelled, order.side, order.price, 0, order.quantity));
        } else {
          shouldRest := true;
        }
      }
      if shouldRest {
        InsertOrder(order, left);
        ev := AddReport(ev, Report(order.id, Resting, order.side, order.price, filled, left));
      }
    }

    lemma SweepByTheRules(order: IncomingOrder)
      requires Valid() && order.quantity > 0
      ensures var r := MatchIn(Book(), order);
              && Rules.SweepRules(order, order.quantity, if order.side.Buy? then Book().asks else Book().bids, r)
              && (if order.side.Buy? then Swept(Book(), order).asks else Swept(Book(), order).bids) == r.queue
    {
      Rules.SweptByTheRules(Book(), order);
    }

    lemma OrderByTheRules(order: IncomingOrder)
      requires Valid()
      ensures var s := Process(Reference, Book(), order);
              Rules.OrderRules(Reference, Book(), order, Rules.Answer(Reference, s.book, s.event))
    {
      Rules.ProcessByTheRules(Reference, Book(), order);
    }

    /** Overwrites the status of the order and forgets its id; the order stays in its list. */
    method CancelOrder(id: OrderID) returns (ev: MatchEvent)
      requires Valid()
      modifies this`orderMap, this`cells, cells.Keys
      ensures Valid()
      ensures Step(Book(), ev) == Cancel(Reference, old(Book()), id)
      ensures cells.Keys == old(cells.Keys) && bids == old(bids) && asks == old(asks)
      ensures Rules.CancelRules(Reference, old(Book()), id, Rules.Answer(Reference, Book(), ev))
    {
      hide Inv, LevelsOk, KeysUncrossed, LiveQueue, MapsNewest, Rules.CancelRules;
      Rules.CancelByTheRules(Reference, Book(), id);
      if id !in orderMap {
        assert Cancel(Reference, Book(), id) == Step(Book(), NO_EVENT);
        return NO_EVENT;
      }
      CancelKeeps(Lists(), orderMap, cells, id);
      var order := orderMap[id];
      order.status := Cancelled;
      ev := MatchEvent([], [Report(order.id, Cancelled, order.side, order.price,
                                   order.quantity - order.remaining, order.remaining)]);
      orderMap := orderMap - {id};
      cells := cells[order := order.Value()];
    }

    /**
     The first level of the side, if there is one, holds a live order; or nothing on
     the side is live and the price of the first level is 0, which reads like none.
     */
    ghost predicate BestIsLive(ls: seq<RefLevel>)
      reads this`cells
    {
      ls == [] || Live(ls[0].orders, cells) != [] || (LiveQueue(ls, cells) == [] && ls[0].price == 0)
    }

    /** The best bid price, counting levels of tombstones, or 0 without levels. */
    method BestBid() returns (price: Price)
      ensures price == if bids == [] then 0 else bids[0].price
      ensures Valid() && Book().bids != [] ==> price >= BestPrice(Book().bids)
      ensures Valid() ==> (price == BestPrice(Book().bids) <==> BestIsLive(bids))
    {
      if bids == [] {
        return 0;
      }
      if Valid() {
        BestKey(Lists(), orderMap, cells, Buy);
      }
      price := bids[0].price;
    }

    /** The best ask price, counting levels of tombstones, or 0 without levels. */
    method BestAsk() returns (price: Price)
      ensures price == if asks == [] then 0 else asks[0].price
      ensures Valid() && Book().asks != [] ==> price <= BestPrice(Book().asks)
      ensures Valid() ==> (price == BestPrice(Book().asks) <==> BestIsLive(asks))
    {
      if asks == [] {
        return 0;
      }
      if Valid() {
        BestKey(Lists(), orderMap, cells, Sell);
      }
      price := asks[0].price;
    }

    /** Sums what the orders at a price have left, skipping tombstones. */
    method RestingQuantity(side: Side, price: Price) returns (total: Quantity)
      requires Valid()
      ensures total == TotalAt(Book().Queue(side), price)
    {
      var ls := Levels(side);
      var k := LevelPlace(side, ls, price);
      if k == |ls| || ls[k].price != price {
        PlaceSplits(side, ls, price);
        TotalAtOtherPrices(side, ls, cells, price);
        return 0;
      }
      TotalAtIsLive(side, ls, cells, k);
      hide RefOk, Inv, LevelsOk, ListOk, NoneEmpty, Total, TotalAt, Live, LiveQueue;
      total := 0;
      var os := ls[k].orders;
      assert os[0..] == os;
      for j := 0 to |os|
        invariant total + Total(Live(os[j..], cells)) == Total(Live(os, cells))
      {
        TotalOfLive(os, cells, j);
        CellPrice(side, ls, cells, k, os[j]);
        if os[j].status != Cancelled && os[j].status != Filled {
          total := total + os[j].remaining;
        }
      }
      EmptyLive(os[|os|..], cells);
    }

    /** What the executable check looks at: the best prices and the order of the keys. */
    ghost predicate Passes()
      reads this`bids, this`asks
    {
      && (bids != [] && asks != [] && bids[0].price > 0 && asks[0].price > 0 ==> bids[0].price < asks[0].price)
      && PricesSorted(Sell, asks) && (forall i :: 0 <= i < |asks| ==> asks[i].price > 0)
      && PricesSorted(Buy, bids) && (forall i :: 0 <= i < |bids| ==> bids[i].price < INT64_MAX)
    }

    /** The executable check finds exactly what it looks at, in every state. */
    method VerifyInvariants() returns (ok: bool)
      ensures ok <==> Passes()
    {
      var bb := BestBid();
      var ba := BestAsk();
      if bb > 0 && ba > 0 && bb >= ba {
        return false;
      }
      var prev := 0;
      for i := 0 to |asks|
        invariant prev == if i == 0 then 0 else asks[i - 1].price
        invariant forall k :: 0 <= k < i ==> 0 < asks[k].price <= prev
        invariant forall j, k :: 0 <= j < k < i ==> asks[j].price < asks[k].price
      {
        if asks[i].price <= prev {
          return false;
        }
        prev := asks[i].price;
      }
      prev := INT64_MAX;
      for i := 0 to |bids|
        invariant prev == if i == 0 then INT64_MAX else bids[i - 1].price
        invariant forall k :: 0 <= k < i ==> INT64_MAX > bids[k].price >= prev
        invariant forall j, k :: 0 <= j < k < i ==> bids[j].price > bids[k].price
      {
        if bids[i].price >= prev {
          return false;
        }
        prev := bids[i].price;
      }
      ok := true;
    }

    /** In a valid state the check succeeds exactly if all ask prices are positive and no bid is at the price limit. */
    lemma ValidPasses()
      requires Valid()
      ensures Passes() <==>
                (forall p :: p in Prices(asks) ==> p > 0) && (forall p :: p in Prices(bids) ==> p < INT64_MAX)
    {
      hide LiveBook, MapsLive, Inv, ListOk, InLevels, NoneEmpty;
      assert forall i :: 0 <= i < |asks| ==> asks[i].price in Prices(asks);
      assert forall i :: 0 <= i < |bids| ==> bids[i].price in Prices(bids);
    }
  }
}
