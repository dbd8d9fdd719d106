/**
 The fast matching engine: two price ladders of intrusive FIFO levels, an order
 pool and an id map, kept consistent with each other by every operation and
 refining the pure book of `BookSpec`.
 */
module Engine {
  import opened Types
  import opened BookSpec
  import opened BookLaws
  import opened Levels
  import opened OrderStore
  import opened Ladder
  import opened IdMap
  import MatchingLaws
  import Rules
  import Runs

  const DEFAULT_MAX_LEVELS: nat := 20000

  /** What a match begins with: id map and freelist, the opposite orders in their priority, and what the map says. */
  datatype Start = Start(holdings: Holdings, orders: seq<Order>, ids: map<OrderID, Place>)

  class MatchingEngine {
    const pool: OrderPool
    const bids: PriceLadder
    const asks: PriceLadder
    var orderMap: map<OrderID, Order>
    // Where the mapped orders are.
    ghost var Ids: map<OrderID, Place>
    // The live orders that no level could hold, oldest first, and their values.
    ghost var Strays: seq<Order>
    ghost var Lost: seq<Entry>

    function LadderOf(side: Side): PriceLadder {
      if side.Buy? then bids else asks
    }

    /** The book as two priority queues and what the id map says. */
    ghost function Book(): Book
      reads this`Ids, bids`View, asks`View
    {
      BookSpec.Book(QueueOf(Buy, bids.View), QueueOf(Sell, asks.View), Ids)
    }

    /** What the specification knows of this engine besides its book. */
    ghost function Kind(): Machine
      reads this`Lost
    {
      Fast(pool.Usable(), bids.maxLevels, Lost)
    }

    /** All orders beside their values. */
    ghost function Stocked(): Stock<Order>
      reads this`Lost, this`Strays, bids`View, bids.levels, asks`View, asks.levels
    {
      Stock(bids.View, bids.Rows(), asks.View, asks.Rows(), Lost, Strays)
    }

    /** The orders of one side in their priority. */
    ghost function Objects(side: Side): seq<Order>
      reads bids.levels, asks.levels
    {
      QueueOf(side, LadderOf(side).Rows())
    }

    /** The id map and the freelist. */
    ghost function Holdings(): Holdings
      reads this`orderMap, pool`Free
    {
      OrderStore.Holdings(orderMap, OrdersAt(pool.slots, pool.Free))
    }

    /** The two ladders share no object. */
    ghost predicate Separate() {
      && bids.side == Buy && asks.side == Sell
      && bids.maxLevels == asks.maxLevels
      && bids != asks
      && (forall l :: l in bids.levels ==> l !in asks.levels)
      && bids.occupied != asks.occupied
      && bids.occupied.data != asks.occupied.data
    }

    ghost function StraySet(): set<Order>
      reads this`Strays
    {
      set o | o in Strays
    }

    /** Every live order is on exactly one ladder or astray. */
    ghost predicate Shelved()
      reads this`Strays, pool`Live, bids`Orders, asks`Orders
    {
      pool.Live == bids.Orders + asks.Orders + StraySet() && bids.Orders !! asks.Orders !! StraySet()
    }

    predicate IsStray(e: Entry) {
      e.price >= bids.maxLevels && e.status == Cancelled
    }

    /** `Lost` records the orders without a level, which are priced beyond the ladders. */
    ghost predicate Astray()
      reads this`Strays, this`Lost, pool.slots
    {
      && (forall i :: 0 <= i < |Strays| ==> Strays[i] in pool.slots)
      && Records(Lost, Strays)
      && (forall i, j :: 0 <= i < j < |Strays| ==> Strays[i] != Strays[j])
      && (forall i :: 0 <= i < |Lost| ==> IsStray(Lost[i]))
    }

    /** The id of a lost order that was cancelled: its slot is free and still marked, or holds another id. */
    ghost predicate Dangles(id: OrderID)
      reads this`orderMap, pool`Live, pool.slots
    {
      && id in orderMap
      && var o := orderMap[id];
      o in pool.slots && if o in pool.Live then o.id != id else o.id == id ==> o.status == Cancelled
    }

    ghost predicate FreedDangle()
      reads this`orderMap, this`Ids, pool`Live, pool.slots
    {
      forall id :: id in Ids && Ids[id].Freed? ==> Dangles(id)
    }

    /** The id map names the orders that `Ids` says. */
    ghost predicate Named()
      reads this, bids`View, bids.levels, asks`View, asks.levels
    {
      AllPoint(Stocked(), Ids, orderMap)
    }

    /** The data structures agree with each other. */
    ghost predicate Consistent()
      reads this, pool, pool.slots
      reads bids, bids.levels, bids.occupied, bids.occupied.data
      reads asks, asks.levels, asks.occupied, asks.occupied.data
    {
      && Separate() && pool.Valid() && Shelved() && Astray()
      && bids.Valid() && asks.Valid() && Named() && FreedDangle()
    }

    ghost predicate Valid()
      reads this, pool, pool.slots
      reads bids, bids.levels, bids.occupied, bids.occupied.data
      reads asks, asks.levels, asks.occupied, asks.occupied.data
    {
      && Consistent()
      && Inv(Book())
      && |pool.Free| + Book().Size() + |Lost| == pool.Usable()
    }

    constructor (maxPriceLevels: int, poolCapacity: nat)
      requires 1 <= poolCapacity
      ensures Valid() && Book() == EMPTY_BOOK && orderMap == map[] && Lost == []
      ensures bids.maxLevels == if maxPriceLevels > 0 then maxPriceLevels else DEFAULT_MAX_LEVELS
      ensures pool.capacity == poolCapacity
      ensures fresh(pool) && fresh(pool.slots)
      ensures fresh(bids) && fresh(bids.levels) && fresh(bids.occupied) && fresh(bids.occupied.data)
      ensures fresh(asks) && fresh(asks.levels) && fresh(asks.occupied) && fresh(asks.occupied.data)
    {
      hide PriceLadder.Valid, OrderPool.Valid;
      var levels := if maxPriceLevels > 0 then maxPriceLevels else DEFAULT_MAX_LEVELS;
      var b := new PriceLadder(levels, Buy);
      var a := new PriceLadder(levels, Sell);
      assert forall l :: l in b.levels ==> l !in a.levels;
      bids, asks := b, a;
      pool := new OrderPool(poolCapacity);
      orderMap := map[];
      Ids, Strays, Lost := map[], [], [];
      new;
      EmptyIsValid();
    }

    lemma EmptyIsValid()
      requires Separate() && pool.Valid() && bids.Valid() && asks.Valid()
      requires pool.Live == bids.Orders == asks.Orders == {} && orderMap == map[] && Ids == map[]
      requires Strays == [] && Lost == [] && |pool.Free| == pool.Usable()
      requires forall i :: 0 <= i < |bids.View| ==> bids.View[i] == []
      requires forall i :: 0 <= i < |asks.View| ==> asks.View[i] == []
      ensures Valid() && Book() == EMPTY_BOOK
    {
      hide PriceLadder.Valid, OrderPool.Valid;
      NoLevels(Buy, bids.View);
      NoLevels(Sell, asks.View);
    }

    lemma OrdersInPool()
      requires Consistent()
      ensures forall o :: o in bids.Orders || o in asks.Orders ==> o in pool.slots
    {
      hide PriceLadder.Valid, AllPoint;
    }

    /** A live order that is in no list, and whose id nothing else depends on; everything else is in its place. */
    ghost predicate Loose(o: Order)
      reads this, pool, pool.slots
      reads bids, bids.levels, bids.occupied, bids.occupied.data
      reads asks, asks.levels, asks.occupied, asks.occupied.data
    {
      && Separate() && pool.Valid() && o in pool.Live
      && o !in bids.Orders && o !in asks.Orders && o !in StraySet()
      && pool.Live == bids.Orders + asks.Orders + StraySet() + {o} && bids.Orders !! asks.Orders !! StraySet()
      && Astray() && bids.Valid() && asks.Valid()
      && AllPoint(Stocked(), Ids - {o.id}, orderMap - {o.id}) && FreedDangle()
    }

    /** Lost orders stay what they are while no value changes. */
    twostate lemma StillAstray()
      requires old(Astray()) && Strays == old(Strays) && Lost == old(Lost)
      requires forall o :: o in pool.slots ==> o.Value() == old(o.Value())
      ensures Astray()
    {
    }

    /** Ids of orders that were given back still dangle if other orders keep their ids and marks. */
    twostate lemma StillDangling()
      requires old(FreedDangle()) && pool.Live <= old(pool.Live)
      requires forall id :: id in Ids && Ids[id].Freed? ==>
                 && id in old(Ids) && old(Ids)[id].Freed?
                 && (id in old(orderMap) ==> id in orderMap && orderMap[id] == old(orderMap)[id])
      requires forall o :: o in pool.slots ==> o.id == old(o.id) && (o !in old(pool.Live) ==> o.status == old(o.status))
      ensures FreedDangle()
    {
      forall id | id in Ids && Ids[id].Freed?
        ensures Dangles(id)
      {
        assert old(Dangles(id));
      }
    }

    /** Erases the id of a loose order from the map and gives its slot back. */
    method Forget(order: Order)
      requires Loose(order)
      modifies this`orderMap, this`Ids, pool`freeHead, pool`Free, pool`Live, order`poolIndex
      ensures Consistent()
      ensures pool.Live == old(pool.Live) - {order}
      ensures orderMap == old(orderMap) - {order.id} && Ids == old(Ids) - {order.id}
      ensures Holdings() == Release(old(Holdings()), order.id, order)
      ensures |pool.Free| == old(|pool.Free|) + 1
    {
      hide OrdersAt, OrderPool.Valid, PriceLadder.Valid, PriceLadder.Rows, AllPoint, Astray, FreedDangle;
      OwnSlot(order);
      OrdersAtPush(pool.slots, order.poolIndex, pool.Free);
      orderMap := orderMap - {order.id};
      Ids := Ids - {order.id};
      pool.Deallocate(order);
      StillAstray();
      StillDangling();
    }

    lemma OwnSlot(order: Order)
      requires pool.Valid() && order in pool.Live
      ensures order in pool.slots && order.poolIndex < |pool.slots| && pool.slots[order.poolIndex] == order
    {
    }

    /** One value and one order for each place of a ladder, at the beginning. */
    twostate lemma RegularStock()
      requires old(Separate() && bids.Valid() && asks.Valid())
      ensures old(Stocked()).Regular() && |old(bids.View)| == bids.maxLevels
      ensures forall i :: 0 <= i < bids.maxLevels ==>
                |old(bids.View)[i]| == |old(bids.Rows())[i]| && |old(asks.View)[i]| == |old(asks.Rows())[i]|
    {
      forall i | 0 <= i < bids.maxLevels
        ensures |old(bids.View)[i]| == |old(bids.Rows())[i]| && |old(asks.View)[i]| == |old(asks.Rows())[i]|
      {
        assert old(bids.LevelOk(i)) && old(asks.LevelOk(i));
      }
    }

    /** An order has left its level: without its id, the map names what it named. */
    twostate lemma StillNamed(ladder: PriceLadder, new other: PriceLadder, new idx: int, new k: nat)
      requires old(Separate() && bids.Valid() && asks.Valid() && Named()) && 0 <= idx < ladder.maxLevels
      requires (ladder == bids && other == asks) || (ladder == asks && other == bids)
      requires idx < |old(ladder.View)| && k < |old(ladder.View)[idx]|
      requires idx < |old(ladder.Rows())| && k < |old(ladder.Rows())[idx]|
      requires ladder.View == old(ladder.View)[idx := RemoveAt(old(ladder.View)[idx], k)]
      requires ladder.Rows() == old(ladder.Rows())[idx := RemoveAt(old(ladder.Rows())[idx], k)]
      requires other.View == old(other.View) && other.Rows() == old(other.Rows()) && unchanged(this)
      ensures AllPoint(Stocked(), Ids - {old(ladder.View)[idx][k].id}, orderMap - {old(ladder.View)[idx][k].id})
    {
      hide AllPoint, PriceLadder.Valid;
      RegularStock();
      TakenKeepsPoints(old(Stocked()), Ids, orderMap, ladder.side, idx, k);
      assert Stocked() == old(Stocked()).WithLevel(ladder.side, idx, ladder.View[idx], ladder.Rows()[idx]);
    }

    /** Takes the order at place `k` of a level off its ladder; the other ladder stays as it is. */
    method Unlink(ladder: PriceLadder, ghost other: PriceLadder, idx: int, order: Order, ghost k: nat)
      requires Separate() && pool.Valid() && bids.Valid() && asks.Valid() && bids.Orders !! asks.Orders
      requires (ladder == bids && other == asks) || (ladder == asks && other == bids)
      requires 0 <= idx < ladder.maxLevels && k < |ladder.levels[idx].Contents|
      requires order == ladder.levels[idx].Contents[k]
      modifies ladder`View, ladder`Orders, ladder.levels, ladder.occupied`Members, ladder.occupied.data
      modifies ladder.Orders`prev, ladder.Orders`next
      ensures pool.Valid() && bids.Valid() && asks.Valid()
      ensures order in old(ladder.Orders) && ladder.Orders == old(ladder.Orders) - {order}
      ensures idx < |old(ladder.View)| && idx < |old(ladder.Rows())|
      ensures k < |old(ladder.View)[idx]| && k < |old(ladder.Rows())[idx]|
      ensures old(ladder.View)[idx][k] == old(order.Value())
      ensures ladder.View == old(ladder.View)[idx := RemoveAt(old(ladder.View)[idx], k)]
      ensures ladder.Rows() == old(ladder.Rows())[idx := RemoveAt(old(ladder.Rows())[idx], k)]
      ensures other.Rows() == old(other.Rows())
    {
      hide PriceLadder.Marked, OrderPool.Valid, PriceLevelList.Valid, PriceLadder.Rows;
      assert ladder.LevelOk(idx);
      assert ladder.levels[idx] in ladder.levels;
      ladder.Detach(idx, order, k);
      other.Untouched();
    }

    /** Takes an order off its ladder: it is loose then. */
    method Unshelve(ladder: PriceLadder, ghost other: PriceLadder, idx: int, order: Order, ghost k: nat)
      requires Consistent()
      requires (ladder == bids && other == asks) || (ladder == asks && other == bids)
      requires 0 <= idx < ladder.maxLevels && k < |ladder.levels[idx].Contents|
      requires order == ladder.levels[idx].Contents[k]
      modifies ladder`View, ladder`Orders, ladder.levels, ladder.occupied`Members, ladder.occupied.data
      modifies ladder.Orders`prev, ladder.Orders`next
      ensures Loose(order)
      ensures idx < |old(ladder.View)| && idx < |old(ladder.Rows())|
      ensures k < |old(ladder.View)[idx]| && k < |old(ladder.Rows())[idx]|
      ensures ladder.View == old(ladder.View)[idx := RemoveAt(old(ladder.View)[idx], k)]
      ensures ladder.Rows() == old(ladder.Rows())[idx := RemoveAt(old(ladder.Rows())[idx], k)]
    {
      hide PriceLadder.Valid, OrderPool.Valid, PriceLadder.Rows, AllPoint, Astray, FreedDangle;
      hide Separate, StraySet, Stocked, RemoveAt;
      Unlink(ladder, other, idx, order, k);
      StillAstray();
      StillDangling();
      StillNamed(ladder, other, idx, k);
    }

    /** Takes the order at place `k` of a level out of the book and its id out of the map, and gives its slot back. */
    method Discard(ladder: PriceLadder, ghost other: PriceLadder, idx: int, order: Order, ghost k: nat)
      requires Consistent()
      requires (ladder == bids && other == asks) || (ladder == asks && other == bids)
      requires 0 <= idx < ladder.maxLevels && k < |ladder.levels[idx].Contents|
      requires order == ladder.levels[idx].Contents[k]
      modifies this`orderMap, this`Ids, pool`freeHead, pool`Free, pool`Live, order`poolIndex
      modifies ladder`View, ladder`Orders, ladder.levels, ladder.occupied`Members, ladder.occupied.data
      modifies ladder.Orders`prev, ladder.Orders`next
      ensures Consistent() && order !in pool.Live
      ensures idx < |old(ladder.View)| && idx < |old(ladder.Rows())|
      ensures k < |old(ladder.View)[idx]| && k < |old(ladder.Rows())[idx]|
      ensures ladder.View == old(ladder.View)[idx := RemoveAt(old(ladder.View)[idx], k)]
      ensures ladder.Rows() == old(ladder.Rows())[idx := RemoveAt(old(ladder.Rows())[idx], k)]
      ensures Ids == old(Ids) - {order.id}
      ensures Holdings() == Release(old(Holdings()), order.id, order) && |pool.Free| == old(|pool.Free|) + 1
    {
      hide Consistent, Loose, Holdings, Release, PriceLadder.Rows;
      Unshelve(ladder, other, idx, order, k);
      Forget(order);
    }

    /** The front order of a level heads its list, is on the ladder, and is recorded first. */
    lemma FrontOfLevel(ladder: PriceLadder, idx: int)
      requires Consistent() && (ladder == bids || ladder == asks)
      requires 0 <= idx < |ladder.View| && ladder.View[idx] != []
      ensures idx < ladder.maxLevels == |ladder.levels| == |ladder.View| && ladder.levels[idx].Contents != []
      ensures bids.side == Buy && asks.side == Sell
      ensures var o := ladder.levels[idx].Contents[0];
              && ladder.levels[idx].head == o && ladder.View[idx][0] == o.Value()
              && o.side == ladder.side && o in ladder.Orders && o in pool.Live && o in pool.slots && o !in StraySet()
    {
      hide PriceLadder.Marked, OrderPool.Valid, Named, FreedDangle;
      assert ladder.LevelOk(idx);
      var o := ladder.levels[idx].Contents[0];
      assert o in ladder.levels[idx].Contents;
      OwnSlot(o);
    }

    /** The value of an order on a ladder matters to nothing but its ladder, as long as it keeps its id. */
    twostate lemma StillIndexed(changed: Order)
      requires old(pool.Valid() && Astray() && FreedDangle()) && changed in pool.Live && changed !in StraySet()
      requires unchanged(this) && unchanged(pool)
      requires forall o :: o in pool.slots && o != changed ==> unchanged(o)
      requires changed.id == old(changed.id) && changed.poolIndex == old(changed.poolIndex)
      ensures pool.Valid() && Astray() && FreedDangle()
    {
      forall o | o in pool.slots
        ensures o.poolIndex == old(o.poolIndex) && o.id == old(o.id)
        ensures o in StraySet() ==> o.Value() == old(o.Value())
      {
      }
      assert pool.Valid() by { hide Dangles, Records; }
      hide OrderPool.Valid;
      assert forall i :: 0 <= i < |Strays| ==> Strays[i] in StraySet();
      StillDangling();
    }

    /** Only what the front order of a level has left, and its mark, changed: the map names what it named. */
    twostate lemma StillNamedRevalued(ladder: PriceLadder, new other: PriceLadder, new idx: int, new e: Entry)
      requires old(Separate() && bids.Valid() && asks.Valid() && Named()) && 0 <= idx < ladder.maxLevels
      requires (ladder == bids && other == asks) || (ladder == asks && other == bids)
      requires idx < |old(ladder.View)| && old(ladder.View)[idx] != []
      requires SameOrder(e, old(ladder.View)[idx][0])
      requires ladder.View == old(ladder.View)[idx := [e] + old(ladder.View)[idx][1..]]
      requires ladder.Rows() == old(ladder.Rows())
      requires other.View == old(other.View) && other.Rows() == old(other.Rows()) && unchanged(this)
      ensures Named()
    {
      hide AllPoint, PriceLadder.Valid;
      RegularStock();
      RevaluedKeepsPoints(old(Stocked()), Ids, orderMap, ladder.side, idx, ladder.View[idx]);
      assert Stocked() == old(Stocked()).WithLevel(ladder.side, idx, ladder.View[idx], ladder.Rows()[idx]);
    }

    /** Lowers what the front order of a level has left. */
    method Reduce(ladder: PriceLadder, ghost other: PriceLadder, idx: int, resting: Order, fill: Quantity)
      requires Consistent()
      requires (ladder == bids && other == asks) || (ladder == asks && other == bids)
      requires 0 <= idx < ladder.maxLevels && ladder.levels[idx].Contents != []
      requires resting == ladder.levels[idx].Contents[0]
      modifies ladder`View, resting`remaining
      ensures Consistent()
      ensures idx < |old(ladder.View)| && old(ladder.View)[idx] != []
      ensures resting.Value() == old(resting.Value()).(remaining := old(resting.remaining) - fill)
      ensures ladder.View == old(ladder.View)[idx := [resting.Value()] + old(ladder.View)[idx][1..]]
    {
      hide OrderPool.Valid, PriceLadder.Marked, PriceLadder.Rows, Named, FreedDangle, Astray;
      assert ladder.LevelOk(idx);
      FrontOfLevel(ladder, idx);
      ladder.ReduceFront(idx, resting, fill);
      other.Untouched();
      hide PriceLadder.Linked;
      StillIndexed(resting);
      StillNamedRevalued(ladder, other, idx, resting.Value());
    }

    method SetStatus(ladder: PriceLadder, ghost other: PriceLadder, idx: int, resting: Order, status: OrderStatus)
      requires Consistent()
      requires (ladder == bids && other == asks) || (ladder == asks && other == bids)
      requires 0 <= idx < ladder.maxLevels && ladder.levels[idx].Contents != []
      requires resting == ladder.levels[idx].Contents[0]
      modifies ladder`View, resting`status
      ensures Consistent()
      ensures idx < |old(ladder.View)| && old(ladder.View)[idx] != []
      ensures resting.Value() == old(resting.Value()).(status := status)
      ensures ladder.View == old(ladder.View)[idx := [resting.Value()] + old(ladder.View)[idx][1..]]
    {
      hide OrderPool.Valid, PriceLadder.Marked, PriceLadder.Rows, Named, FreedDangle, Astray;
      assert ladder.LevelOk(idx);
      FrontOfLevel(ladder, idx);
      ladder.SetFrontStatus(idx, resting, status);
      other.Untouched();
      hide PriceLadder.Linked;
      StillIndexed(resting);
      StillNamedRevalued(ladder, other, idx, resting.Value());
    }

    /** Marks the front order of a level filled and takes it out. */
    method RemoveFilled(ladder: PriceLadder, ghost other: PriceLadder, idx: int, resting: Order)
      requires Consistent()
      requires (ladder == bids && other == asks) || (ladder == asks && other == bids)
      requires 0 <= idx < ladder.maxLevels && ladder.levels[idx].Contents != []
      requires resting == ladder.levels[idx].Contents[0]
      modifies this`orderMap, this`Ids, pool`freeHead, pool`Free, pool`Live, resting`status, resting`poolIndex
      modifies ladder`View, ladder`Orders, ladder.levels, ladder.occupied`Members, ladder.occupied.data
      modifies ladder.Orders`prev, ladder.Orders`next
      ensures Consistent()
      ensures idx < |old(ladder.View)| && old(ladder.View)[idx] != []
      ensures idx < |old(ladder.Rows())| && old(ladder.Rows())[idx] != [] && old(ladder.Rows())[idx][0] == resting
      ensures ladder.View == old(ladder.View)[idx := [] + old(ladder.View)[idx][1..]]
      ensures ladder.Rows() == old(ladder.Rows())[idx := [] + old(ladder.Rows())[idx][1..]]
      ensures Ids == old(Ids) - {old(resting.id)}
      ensures Holdings() == Release(old(Holdings()), old(resting.id), resting) && |pool.Free| == old(|pool.Free|) + 1
    {
      hide Release, OrdersAt, Consistent, Separate, PriceLadder.Rows;
      ghost var rows := ladder.Rows();
      FrontRow(ladder, idx);
      FrontGone(ladder.View, idx, resting.Value().(status := Filled));
      SetStatus(ladder, other, idx, resting, Filled);
      Discard(ladder, other, idx, resting, 0);
      assert RemoveAt(rows[idx], 0) == [] + rows[idx][1..];
    }

    lemma FrontRow(ladder: PriceLadder, idx: int)
      requires Consistent() && (ladder == bids || ladder == asks)
      requires 0 <= idx < ladder.maxLevels && ladder.levels[idx].Contents != []
      ensures idx < |ladder.View| && idx < |ladder.Rows()| && ladder.View[idx] != []
      ensures ladder.Rows()[idx] == ladder.levels[idx].Contents
      ensures ladder.levels[idx].Contents[0] in ladder.Orders
    {
      hide OrderPool.Valid, Named, FreedDangle, Astray;
      assert ladder.LevelOk(idx);
      assert ladder.levels[idx].Contents[0] in ladder.levels[idx].Contents;
    }

    /** Takes `fill` from the front order of a level, and the order out of the book if nothing is left. */
    method Execute(ladder: PriceLadder, ghost other: PriceLadder, idx: int, resting: Order, fill: Quantity)
      requires Consistent()
      requires (ladder == bids && other == asks) || (ladder == asks && other == bids)
      requires 0 <= idx < ladder.maxLevels && ladder.levels[idx].Contents != []
      requires resting == ladder.levels[idx].Contents[0]
      modifies this`orderMap, this`Ids, pool`freeHead, pool`Free, pool`Live, ladder.Orders
      modifies ladder`View, ladder`Orders, ladder.levels, ladder.occupied`Members, ladder.occupied.data
      ensures Consistent()
      ensures idx < |old(ladder.View)| && old(ladder.View)[idx] != []
      ensures idx < |old(ladder.Rows())| && old(ladder.Rows())[idx] != [] && old(ladder.Rows())[idx][0] == resting
      ensures ladder.View == FillLevel(old(ladder.View), idx, fill)
      ensures if old(ladder.View)[idx][0].remaining == fill
              then && Holdings() == Release(old(Holdings()), old(resting.id), resting)
                   && |pool.Free| == old(|pool.Free|) + 1
                   && ladder.Rows() == old(ladder.Rows())[idx := [] + old(ladder.Rows())[idx][1..]]
                   && Ids == old(Ids) - {old(resting.id)}
              else && Holdings() == old(Holdings()) && pool.Free == old(pool.Free)
                   && ladder.Rows() == old(ladder.Rows()) && Ids == old(Ids)
    {
      hide Release, OrdersAt, Consistent, Separate, PriceLadder.Rows;
      FrontRow(ladder, idx);
      FrontValue(ladder, idx);
      ghost var e1 := resting.Value().(remaining := resting.remaining - fill);
      FrontTwice(ladder.View, idx, e1, e1.(status := PartiallyFilled));
      FrontTwice(ladder.View, idx, e1, e1);
      Reduce(ladder, other, idx, resting, fill);
      if resting.remaining == 0 {
        RemoveFilled(ladder, other, idx, resting);
      } else {
        SetStatus(ladder, other, idx, resting, PartiallyFilled);
      }
    }

    lemma FrontValue(ladder: PriceLadder, idx: int)
      requires Consistent() && (ladder == bids || ladder == asks)
      requires 0 <= idx < ladder.maxLevels && ladder.levels[idx].Contents != []
      ensures idx < |ladder.View| && ladder.View[idx] != []
      ensures ladder.View[idx][0] == ladder.levels[idx].Contents[0].Value()
    {
      hide OrderPool.Valid, Named, FreedDangle, Astray;
      assert ladder.LevelOk(idx);
    }

    /** What has become of an engine since the start of a match on one side, given the reports so far. */
    ghost predicate Since(start: Start, side: Side, ev: MatchEvent)
      reads this`orderMap, this`Ids, pool`Free, bids.levels, asks.levels
    {
      && |ev.reports| <= |start.orders|
      && Objects(side) == start.orders[|ev.reports|..]
      && Holdings() == ReleaseAll(start.holdings, ev.reports, start.orders)
      && Ids == start.ids - ReportedIds(ev.reports)
    }

    ghost function Now(side: Side): Start
      reads this`orderMap, this`Ids, pool`Free, bids.levels, asks.levels
    {
      Start(Holdings(), Objects(side), Ids)
    }

    lemma SinceNow(side: Side)
      ensures Since(Now(side), side, NO_EVENT)
    {
      NothingReported(Ids);
    }

    /** The best level of a ladder also holds the first of its orders. */
    lemma FrontObject(ladder: PriceLadder, idx: int)
      requires Consistent() && (ladder == bids || ladder == asks)
      requires 0 <= idx && IsBest(ladder.side, ladder.View, idx)
      ensures IsBest(ladder.side, ladder.Rows(), idx) && Objects(ladder.side) != []
      ensures Objects(ladder.side)[0] == ladder.Rows()[idx][0]
      ensures Objects(ladder.side)[1..] == QueueOf(ladder.side, ladder.Rows()[idx := [] + ladder.Rows()[idx][1..]])
    {
      hide OrderPool.Valid, Named, FreedDangle, Astray, QueueOf, PriceLadder.Rows;
      forall i | 0 <= i < ladder.maxLevels
        ensures |ladder.View| == |ladder.Rows()| == ladder.maxLevels && |ladder.View[i]| == |ladder.Rows()[i]|
      {
        assert ladder.LevelOk(i);
      }
      FrontReplaced(ladder.side, ladder.Rows(), idx, []);
      assert [] + QueueOf(ladder.side, ladder.Rows())[1..] == QueueOf(ladder.side, ladder.Rows())[1..];
    }

    /** What one fill adds to what happened since the start of the match. */
    twostate lemma SinceFilled(start: Start, new side: Side, new ev0: MatchEvent, new ev: MatchEvent,
                               new resting: Order)
      requires old(Since(start, side, ev0)) && old(Objects(side)) != [] && old(Objects(side))[0] == resting
      requires if ev.reports == ev0.reports
               then Holdings() == old(Holdings()) && Objects(side) == old(Objects(side)) && Ids == old(Ids)
               else && |ev.reports| == |ev0.reports| + 1 && ev.reports[..|ev0.reports|] == ev0.reports
                    && ev.reports[|ev0.reports|].orderId == old(resting.id)
                    && Holdings() == Release(old(Holdings()), old(resting.id), resting)
                    && Objects(side) == old(Objects(side))[1..] && Ids == old(Ids) - {old(resting.id)}
      ensures Since(start, side, ev)
    {
      hide Release, Objects, Holdings, ReportedIds;
      if ev.reports != ev0.reports {
        var r := ev.reports[|ev0.reports|];
        assert ev.reports == ev0.reports + [r];
        OneMoreReported(start.ids, ev0.reports, r);
        ReleaseAllSnoc(start.holdings, ev0.reports, r, start.orders);
        assert start.orders[|ev0.reports|..][1..] == start.orders[|ev.reports|..];
      }
    }

    /** One fill against the front order of the best opposite level. */
    method FillFront(ladder: PriceLadder, ghost other: PriceLadder, idx: int, order: IncomingOrder,
                     left0: Quantity, ev0: MatchEvent, ghost start: Start)
      returns (left: Quantity, ev: MatchEvent)
      requires Valid() && Since(start, order.side.Opposite(), ev0)
      requires ladder == LadderOf(order.side.Opposite()) && other == LadderOf(order.side)
      requires 0 <= idx && IsBest(order.side.Opposite(), ladder.View, idx)
      requires !Done(order, left0, Book().Queue(order.side.Opposite()))
      modifies this`orderMap, this`Ids, pool`freeHead, pool`Free, pool`Live, ladder.Orders
      modifies ladder`View, ladder`Orders, ladder.levels, ladder.occupied`Members, ladder.occupied.data
      ensures Valid() && Since(start, order.side.Opposite(), ev)
      ensures var f := Fill(order, left0, old(Book()).Queue(order.side.Opposite()), ev0);
              && Book().Queue(order.side.Opposite()) == f.queue && left == f.left && ev == f.event
              && Book().Queue(order.side) == old(Book()).Queue(order.side)
      ensures Rules.FillRules(order, left0, old(Book()).Queue(order.side.Opposite())[0], ev0, left, ev)
      ensures 0 <= left < left0
      ensures old(ladder.View)[idx] != []
      ensures |ladder.View| == |old(ladder.View)|
      ensures forall i :: 0 <= i < |ladder.View| && i != idx ==> ladder.View[i] == old(ladder.View)[i]
    {
      hide Consistent, Inv, Holdings, Release, Since, PriceLadder.Rows, QueueOf, Order.Value;
      ghost var book := Book();
      ghost var side := order.side.Opposite();
      ghost var f := Fill(order, left0, book.Queue(side), ev0);
      FillKeepsInv(book, order, left0, ev0);
      Rules.FillByTheRules(order, left0, book.Queue(side), ev0);
      hide Rules.FillRules;
      FillLevelFillsQueue(side, ladder.View, idx, order, left0, ev0);
      FrontOfLevel(ladder, idx);
      FrontObject(ladder, idx);
      FrontFields(ladder.levels[idx].Contents[0]);
      var resting := ladder.levels[idx].head;
      var fill := Min(left0, resting.remaining);
      if order.side.Buy? {
        ev := AddTrade(ev0, Trade(order.id, resting.id, resting.price, fill, order.timestamp));
      } else {
        ev := AddTrade(ev0, Trade(resting.id, order.id, resting.price, fill, order.timestamp));
      }
      left := left0 - fill;
      if resting.remaining == fill {
        ev := AddReport(ev, Report(resting.id, Filled, order.side.Opposite(), resting.price, resting.quantity, 0));
      }
      assert ev == f.event;
      SidesAreApart();
      hide FillLevel, Fill, AddTrade, AddReport;
      FilledLevels(ladder.View, idx, fill);
      Execute(ladder, other, idx, resting, fill);
      SinceFilled(start, side, ev0, ev, resting);
      OneSideChanged(ladder, other);
      assert Inv(Book()) by {
        InvIgnoresIds(book.With(side, f.queue), Book());
      }
    }

    lemma FrontFields(o: Order)
      ensures var e := o.Value();
              && o.id == e.id && o.side == e.side && o.price == e.price
              && o.quantity == e.quantity && o.remaining == e.remaining
    {
    }

    lemma FilledLevels(v: seq<seq<Entry>>, k: nat, fill: Quantity)
      requires k < |v| && v[k] != []
      ensures |FillLevel(v, k, fill)| == |v|
      ensures forall i :: 0 <= i < |v| && i != k ==> FillLevel(v, k, fill)[i] == v[i]
    {
    }

    /** What the book is when only one ladder and the map have changed. */
    twostate lemma OneSideChanged(ladder: PriceLadder, new other: PriceLadder)
      requires (ladder == bids && other == asks) || (ladder == asks && other == bids)
      requires bids != asks && bids.side == Buy && asks.side == Sell
      requires other.View == old(other.View)
      ensures Book() == old(Book()).With(ladder.side, QueueOf(ladder.side, ladder.View)).(ids := Ids)
    {
    }

    lemma InvIgnoresIds(a: BookSpec.Book, b: BookSpec.Book)
      requires Inv(a) && a.bids == b.bids && a.asks == b.asks
      ensures Inv(b)
    {
    }

    /** Fills against one level in arrival order, until the order is filled or the level is empty. */
    method SweepLevel(ladder: PriceLadder, ghost other: PriceLadder, best: int, order: IncomingOrder,
                      left0: Quantity, ev0: MatchEvent, ghost start: Start)
      returns (left: Quantity, ev: MatchEvent)
      requires Valid() && left0 > 0 && Since(start, order.side.Opposite(), ev0)
      requires ladder == LadderOf(order.side.Opposite()) && other == LadderOf(order.side)
      requires 0 <= best && IsBest(order.side.Opposite(), ladder.View, best) && Crosses(order, best)
      modifies this`orderMap, this`Ids, pool`freeHead, pool`Free, pool`Live, pool.slots
      modifies ladder`View, ladder`Orders, ladder.levels, ladder.occupied`Members, ladder.occupied.data
      ensures Valid() && 0 <= left < left0 && Since(start, order.side.Opposite(), ev)
      ensures Book().Queue(order.side) == old(Book()).Queue(order.side)
      ensures Match(order, left, Book().Queue(order.side.Opposite()), ev)
              == Match(order, left0, old(Book()).Queue(order.side.Opposite()), ev0)
    {
      hide Consistent, Separate, Inv, OrdersAt, Holdings, Since, Objects, PriceLadder.Rows, QueueOf;
      left, ev := left0, ev0;
      LevelHead(ladder, best);
      while left > 0 && ladder.levels[best].head != null
        invariant Valid() && 0 <= left <= left0 && Since(start, order.side.Opposite(), ev)
        invariant |ladder.View| == |ladder.levels| == ladder.maxLevels
        invariant ladder.levels[best].head == null <==> ladder.View[best] == []
        invariant left == left0 ==> ladder.View[best] != []
        invariant Book().Queue(order.side) == old(Book()).Queue(order.side)
        invariant forall i :: 0 <= i < |ladder.View| && Better(order.side.Opposite(), i, best) ==> ladder.View[i] == []
        invariant Match(order, left, Book().Queue(order.side.Opposite()), ev)
                  == Match(order, left0, old(Book()).Queue(order.side.Opposite()), ev0)
        decreases left
      {
        FrontCrosses(ladder, order.side.Opposite(), best);
        OrdersInPool();
        left, ev := FillFront(ladder, other, best, order, left, ev, start);
        LevelHead(ladder, best);
      }
    }

    /** A level has a head exactly if it has values. */
    lemma LevelHead(ladder: PriceLadder, idx: int)
      requires Consistent() && (ladder == bids || ladder == asks) && 0 <= idx < |ladder.View|
      ensures |ladder.View| == |ladder.levels| == ladder.maxLevels
      ensures ladder.levels[idx].head == null <==> ladder.View[idx] == []
    {
      hide OrderPool.Valid, Named, FreedDangle, Astray, PriceLadder.Marked;
      assert ladder.LevelOk(idx);
    }

    /** The first order of a side has the price of the best level. */
    lemma FrontCrosses(ladder: PriceLadder, side: Side, best: int)
      requires Consistent() && ladder == LadderOf(side) && 0 <= best && IsBest(side, ladder.View, best)
      ensures Book().Queue(side) != [] && Book().Queue(side)[0].price == best
    {
      hide OrderPool.Valid, Named, FreedDangle, Astray, PriceLadder.Marked;
      assert ladder.LevelOk(best);
      BestLevelIsFront(side, ladder.View, best);
    }

    /** Matches a buy order against the asks, lowest price first, in arrival order within a price. */
    method MatchBuy(order: IncomingOrder) returns (left: Quantity, ev: MatchEvent)
      requires Valid() && order.side.Buy? && order.quantity > 0
      modifies this`orderMap, this`Ids, pool`freeHead, pool`Free, pool`Live, pool.slots
      modifies asks`View, asks`Orders, asks.levels, asks.occupied`Members, asks.occupied.data
      ensures Valid() && Since(old(Now(Sell)), Sell, ev)
      ensures Book() == Swept(old(Book()), order)
      ensures left == MatchIn(old(Book()), order).left && ev == MatchIn(old(Book()), order).event
      ensures Rules.SweepRules(order, order.quantity, old(Book()).asks, Outcome(Book().asks, left, ev))
    {
      hide Consistent, Separate, OrdersAt, Holdings, Since, Objects, PriceLadder.Rows, QueueOf, Rules.SweepRules;
      left, ev := order.quantity, NO_EVENT;
      Rules.SweptByTheRules(Book(), order);
      hide Inv, Rules.Emptied, Rules.FirstIds;
      SinceNow(Sell);
      while left > 0
        invariant Valid() && 0 <= left <= order.quantity && Since(old(Now(Sell)), Sell, ev)
        invariant Book().bids == old(Book().bids)
        invariant Match(order, left, Book().asks, ev) == MatchIn(old(Book()), order)
        decreases left
      {
        LaddersAreValid();
        var best := asks.FindBestAsk();
        if best < 0 {
          NoLevels(Sell, asks.View);
          break;
        }
        FrontCrosses(asks, Sell, best);
        var crosses := order.otype.Market? || order.price >= asks.IndexToPrice(best);
        if !crosses {
          break;
        }
        left, ev := SweepLevel(asks, bids, best, order, left, ev, old(Now(Sell)));
      }
      SinceIds(old(Now(Sell)), Sell, ev);
    }

    lemma LaddersAreValid()
      requires Consistent()
      ensures bids.Valid() && asks.Valid()
      ensures |bids.View| == |bids.levels| == bids.maxLevels && |asks.View| == |asks.levels| == asks.maxLevels
    {
      hide OrderPool.Valid, Named, FreedDangle, Astray;
    }

    lemma SinceIds(start: Start, side: Side, ev: MatchEvent)
      requires Since(start, side, ev)
      ensures Ids == start.ids - ReportedIds(ev.reports) && |ev.reports| <= |start.orders|
    {
    }

    /** Matches a sell order against the bids, highest price first, in arrival order within a price. */
    method MatchSell(order: IncomingOrder) returns (left: Quantity, ev: MatchEvent)
      requires Valid() && order.side.Sell? && order.quantity > 0
      modifies this`orderMap, this`Ids, pool`freeHead, pool`Free, pool`Live, pool.slots
      modifies bids`View, bids`Orders, bids.levels, bids.occupied`Members, bids.occupied.data
      ensures Valid() && Since(old(Now(Buy)), Buy, ev)
      ensures Book() == Swept(old(Book()), order)
      ensures left == MatchIn(old(Book()), order).left && ev == MatchIn(old(Book()), order).event
      ensures Rules.SweepRules(order, order.quantity, old(Book()).bids, Outcome(Book().bids, left, ev))
    {
      hide Consistent, Separate, OrdersAt, Holdings, Since, Objects, PriceLadder.Rows, QueueOf, Rules.SweepRules;
      left, ev := order.quantity, NO_EVENT;
      Rules.SweptByTheRules(Book(), order);
      hide Inv, Rules.Emptied, Rules.FirstIds;
      SinceNow(Buy);
      while left > 0
        invariant Valid() && 0 <= left <= order.quantity && Since(old(Now(Buy)), Buy, ev)
        invariant Book().asks == old(Book().asks)
        invariant Match(order, left, Book().bids, ev) == MatchIn(old(Book()), order)
        decreases left
      {
        LaddersAreValid();
        var best := bids.FindBestBid();
        if best < 0 {
          NoLevels(Buy, bids.View);
          break;
        }
        FrontCrosses(bids, Buy, best);
        var crosses := order.otype.Market? || order.price <= bids.IndexToPrice(best);
        if !crosses {
          break;
        }
        left, ev := SweepLevel(bids, asks, best, order, left, ev, old(Now(Buy)));
      }
      SinceIds(old(Now(Buy)), Buy, ev);
    }

    /** Everything agrees, except that the live order `o` is neither in a list nor mapped yet. */
    ghost predicate Awaiting(o: Order)
      reads this, pool, pool.slots
      reads bids, bids.levels, bids.occupied, bids.occupied.data
      reads asks, asks.levels, asks.occupied, asks.occupied.data
    {
      && Separate() && bids != asks && pool.Valid() && o in pool.Live
      && o !in bids.Orders && o !in asks.Orders && o !in StraySet()
      && pool.Live == bids.Orders + asks.Orders + StraySet() + {o} && bids.Orders !! asks.Orders !! StraySet()
      && Astray() && bids.Valid() && asks.Valid() && Named()
      && forall id :: id in Ids && Ids[id].Freed? && id != o.id ==> Dangles(id)
    }

    /** Like `Awaiting`, before the order is filled in: freed ids may still name its slot. */
    ghost predicate Blank(o: Order)
      reads this, pool, pool.slots
      reads bids, bids.levels, bids.occupied, bids.occupied.data
      reads asks, asks.levels, asks.occupied, asks.occupied.data
    {
      && Separate() && pool.Valid() && o in pool.Live
      && o !in bids.Orders && o !in asks.Orders && o !in StraySet()
      && pool.Live == bids.Orders + asks.Orders + StraySet() + {o} && bids.Orders !! asks.Orders !! StraySet()
      && Astray() && bids.Valid() && asks.Valid() && Named()
      && forall id :: id in Ids && Ids[id].Freed? ==> id in orderMap && (orderMap[id] == o || Dangles(id))
    }

    lemma NextSlotIsFree()
      requires Consistent()
      ensures pool.capacity == |pool.slots|
      ensures forall o :: o in pool.NextSlot() ==>
                o in pool.slots && o !in bids.Orders && o !in asks.Orders && o !in StraySet() && o !in pool.Live
    {
      hide Named, FreedDangle, Astray, PriceLadder.Valid;
    }

    /** Lost orders do not change while other orders do. */
    twostate lemma StillAstrayBut(changed: set<Order>)
      requires old(Astray()) && Strays == old(Strays) && Lost == old(Lost) && changed !! StraySet()
      requires forall o :: o in pool.slots && o !in changed ==> o.Value() == old(o.Value())
      ensures Astray()
    {
      assert forall i :: 0 <= i < |Strays| ==> Strays[i] in StraySet();
    }

    /** Takes a slot from the pool; null if the pool is exhausted. */
    method NewSlot() returns (o: Order?)
      requires Consistent()
      modifies pool`freeHead, pool`Free, pool`Live, pool.slots
      ensures o == null <==> old(pool.Free) == []
      ensures o == null ==> Consistent() && pool.Free == old(pool.Free)
      ensures o != null ==>
                && Blank(o) && pool.Free == old(pool.Free)[1..] && o in pool.slots && o == pool.slots[old(pool.Free)[0]]
    {
      hide PriceLadder.Valid, OrderPool.Valid, PriceLadder.Rows, AllPoint, Astray;
      NextSlotIsFree();
      o := pool.Allocate();
      if o != null {
        StillAstrayBut({o});
        OwnSlot(o);
        SlotBlanked(o);
      }
    }

    /** A slot has become live, and nothing else happened: ids that dangle at other slots still do. */
    twostate lemma SlotBlanked(o: Order)
      requires old(FreedDangle()) && unchanged(this) && pool.Live == old(pool.Live) + {o}
      requires forall x :: x in pool.slots && x != o ==> unchanged(x)
      ensures forall id :: id in Ids && Ids[id].Freed? ==> id in orderMap && (orderMap[id] == o || Dangles(id))
    {
      forall id | id in Ids && Ids[id].Freed?
        ensures id in orderMap && (orderMap[id] == o || Dangles(id))
      {
        assert old(Dangles(id));
      }
    }

    /** The new order is filled in: ids that named its slot still dangle, but for its own. */
    twostate lemma SlotFilled(o: Order)
      requires old(Blank(o)) && unchanged(this) && unchanged(pool)
      requires forall x :: x in pool.slots && x != o ==> unchanged(x)
      requires o in pool.slots
      ensures forall id :: id in Ids && Ids[id].Freed? && id != o.id ==> Dangles(id)
    {
      hide OrderPool.Valid, PriceLadder.Valid, Astray, Named;
      forall id | id in Ids && Ids[id].Freed? && id != o.id
        ensures Dangles(id)
      {
        assert old(id in orderMap && (orderMap[id] == o || Dangles(id)));
      }
    }

    /** Fills in a slot. */
    method FillIn(o: Order, order: IncomingOrder, left: Quantity, status: OrderStatus)
      requires Blank(o) && o in pool.slots
      modifies o`id, o`side, o`otype, o`price, o`quantity, o`remaining, o`timestamp, o`status
      ensures Awaiting(o) && o.Value() == EntryOf(order, left).(status := status)
    {
      hide PriceLadder.Valid, OrderPool.Valid, PriceLadder.Rows, AllPoint, Astray;
      o.Assign(order, left, status);
      StillAstrayBut({o});
      SlotFilled(o);
    }

    /** Takes a slot from the pool and fills it in; null if the pool is exhausted. */
    method NewOrder(order: IncomingOrder, left: Quantity, status: OrderStatus) returns (o: Order?)
      requires Consistent()
      modifies pool`freeHead, pool`Free, pool`Live, pool.slots
      ensures o == null <==> old(pool.Free) == []
      ensures o == null ==> Consistent() && pool.Free == old(pool.Free)
      ensures o != null ==>
                && Awaiting(o) && o.Value() == EntryOf(order, left).(status := status)
                && pool.Free == old(pool.Free)[1..] && o == pool.slots[old(pool.Free)[0]]
    {
      hide Consistent, Blank, Awaiting;
      o := NewSlot();
      if o != null {
        FillIn(o, order, left, status);
      }
    }

    /** A new order is last on its level: with its id mapped to it, the map names what it named. */
    twostate lemma NowNamed(o: Order, new ladder: PriceLadder, new other: PriceLadder)
      requires old(Separate() && bids.Valid() && asks.Valid() && Named()) && 0 <= o.price < ladder.maxLevels
      requires (ladder == bids && other == asks) || (ladder == asks && other == bids)
      requires ladder.side == o.side && o.Value() == old(o.Value())
      requires o.price < |old(ladder.View)| && o.price < |old(ladder.Rows())|
      requires ladder.View == old(ladder.View)[o.price := old(ladder.View)[o.price] + [o.Value()]]
      requires ladder.Rows() == old(ladder.Rows())[o.price := old(ladder.Rows())[o.price] + [o]]
      requires other.View == old(other.View) && other.Rows() == old(other.Rows()) && unchanged(this)
      ensures AllPoint(Stocked(), Ids[o.id := Shelf(o.side, o.price)], orderMap[o.id := o])
    {
      hide AllPoint, PriceLadder.Valid;
      RegularStock();
      PutKeepsPoints(old(Stocked()), Ids, orderMap, o.Value(), o);
      assert Stocked() == old(Stocked()).WithLevel(o.side, o.price, ladder.View[o.price], ladder.Rows()[o.price]);
    }

    /** Puts an order at the end of its level and marks the level; the other ladder stays as it is. */
    method Link(ladder: PriceLadder, ghost other: PriceLadder, idx: int, o: Order)
      requires Separate() && pool.Valid() && bids.Valid() && asks.Valid() && bids.Orders !! asks.Orders
      requires o !in bids.Orders && o !in asks.Orders && ladder.side == o.side && 0 <= idx == o.price < ladder.maxLevels
      requires (ladder == bids && other == asks) || (ladder == asks && other == bids)
      modifies o`prev, o`next, ladder.Orders`next
      modifies ladder`View, ladder`Orders, ladder.levels, ladder.occupied`Members, ladder.occupied.data
      ensures pool.Valid() && bids.Valid() && asks.Valid() && ladder.Orders == old(ladder.Orders) + {o}
      ensures idx < |old(ladder.View)| == ladder.maxLevels && idx < |old(ladder.Rows())|
      ensures ladder.View == old(ladder.View)[idx := old(ladder.View)[idx] + [o.Value()]]
      ensures ladder.Rows() == old(ladder.Rows())[idx := old(ladder.Rows())[idx] + [o]]
      ensures other.Rows() == old(other.Rows())
    {
      hide PriceLadder.Valid, OrderPool.Valid, PriceLadder.Rows;
      ladder.OneViewPerLevel();
      assert ladder.levels[idx] in ladder.levels;
      ladder.Append(idx, o);
      other.Untouched();
    }

    /** Puts an awaiting order at the end of its level; once its id is mapped to it, everything agrees. */
    method Attach(ladder: PriceLadder, ghost other: PriceLadder, idx: int, o: Order)
      requires Awaiting(o) && ladder.side == o.side && 0 <= idx == o.price < ladder.maxLevels
      requires (ladder == bids && other == asks) || (ladder == asks && other == bids)
      modifies o`prev, o`next, ladder.Orders`next
      modifies ladder`View, ladder`Orders, ladder.levels, ladder.occupied`Members, ladder.occupied.data
      ensures Ready(o) && o.Value() == old(o.Value())
      ensures idx < |old(ladder.View)| == ladder.maxLevels
      ensures ladder.View == old(ladder.View)[idx := old(ladder.View)[idx] + [o.Value()]]
    {
      hide PriceLadder.Valid, OrderPool.Valid, PriceLadder.Rows, Named, Astray;
      hide Separate, StraySet, Stocked, Dangles, AllPoint, Shelved;
      OwnSlot(o);
      Link(ladder, other, idx, o);
      OneMoreShelved(o, ladder, other);
      StillAstray();
      OthersDangle(o);
      NowNamed(o, ladder, other);
    }

    twostate lemma OneMoreShelved(o: Order, new ladder: PriceLadder, new other: PriceLadder)
      requires (ladder == bids && other == asks) || (ladder == asks && other == bids)
      requires old(bids.Orders !! asks.Orders !! StraySet())
      requires o !in old(bids.Orders) && o !in old(asks.Orders) && o !in old(StraySet())
      requires pool.Live == old(bids.Orders + asks.Orders + StraySet()) + {o} && StraySet() == old(StraySet())
      requires bids != asks && ladder.Orders == old(ladder.Orders) + {o} && other.Orders == old(other.Orders)
      ensures Shelved()
    {
      hide StraySet;
    }

    /** Everything agrees once the id of the order is mapped to it. */
    ghost predicate Ready(o: Order)
      reads this, pool, pool.slots, o
      reads bids, bids.levels, bids.occupied, bids.occupied.data
      reads asks, asks.levels, asks.occupied, asks.occupied.data
    {
      && Separate() && pool.Valid() && Shelved() && Astray() && bids.Valid() && asks.Valid()
      && AllPoint(Stocked(), Ids[o.id := Shelf(o.side, o.price)], orderMap[o.id := o])
      && forall id :: id in Ids && Ids[id].Freed? && id != o.id ==> Dangles(id)
    }

    method MapTo(o: Order)
      requires Ready(o)
      modifies this`orderMap, this`Ids
      ensures Consistent()
      ensures orderMap == old(orderMap)[o.id := o] && Ids == old(Ids)[o.id := Shelf(o.side, o.price)]
    {
      hide PriceLadder.Valid, OrderPool.Valid, Shelved, Astray, AllPoint, PriceLadder.Rows, Separate;
      orderMap := orderMap[o.id := o];
      Ids := Ids[o.id := Shelf(o.side, o.price)];
    }

    /** Nothing that matters to freed ids has changed. */
    twostate lemma OthersDangle(o: Order)
      requires old(forall id :: id in Ids && Ids[id].Freed? && id != o.id ==> Dangles(id))
      requires unchanged(this) && unchanged(pool)
      requires forall x :: x in pool.slots ==> x.id == old(x.id) && x.status == old(x.status)
      requires o.id == old(o.id)
      ensures forall id :: id in Ids && Ids[id].Freed? && id != o.id ==> Dangles(id)
    {
      forall id | id in Ids && Ids[id].Freed? && id != o.id
        ensures Dangles(id)
      {
        assert old(Dangles(id));
      }
    }

    lemma AwaitingInPool(o: Order)
      requires Awaiting(o)
      ensures o in pool.slots && Separate() && bids.Valid() && asks.Valid() && Named()
      ensures forall x :: x in bids.Orders || x in asks.Orders || x in StraySet() ==> x in pool.slots
    {
      hide Astray, PriceLadder.Valid, Named, Dangles;
    }

    /** Puts an awaiting order at the end of its level and maps its id. */
    method Shelve(ladder: PriceLadder, ghost other: PriceLadder, idx: int, o: Order)
      requires Awaiting(o) && ladder.side == o.side && 0 <= idx == o.price < ladder.maxLevels
      requires (ladder == bids && other == asks) || (ladder == asks && other == bids)
      modifies this`orderMap, this`Ids, pool.slots
      modifies ladder`View, ladder`Orders, ladder.levels, ladder.occupied`Members, ladder.occupied.data
      ensures Consistent() && o.Value() == old(o.Value())
      ensures orderMap == old(orderMap)[o.id := o] && Ids == old(Ids)[o.id := Shelf(o.side, o.price)]
      ensures idx < |old(ladder.View)| == ladder.maxLevels
      ensures ladder.View == old(ladder.View)[idx := old(ladder.View)[idx] + [o.Value()]]
    {
      hide Awaiting, Ready, Consistent;
      AwaitingInPool(o);
      Attach(ladder, other, idx, o);
      MapTo(o);
    }

    /**
     Puts an allocated order at the end of its level and maps its id. A price
     outside the ladder only marks the order cancelled.
     */
    method InsertOrder(ladder: PriceLadder, ghost other: PriceLadder, o: Order)
      requires Awaiting(o) && ladder.side == o.side && o.price >= 0
      requires (ladder == bids && other == asks) || (ladder == asks && other == bids)
      modifies this`orderMap, this`Ids, pool.slots
      modifies ladder`View, ladder`Orders, ladder.levels, ladder.occupied`Members, ladder.occupied.data
      ensures o.id == old(o.id) && o.price == old(o.price) && o.side == old(o.side)
      ensures |old(ladder.View)| == ladder.maxLevels == bids.maxLevels
      ensures o.price < ladder.maxLevels ==>
                && Consistent() && o.Value() == old(o.Value())
                && orderMap == old(orderMap)[o.id := o] && Ids == old(Ids)[o.id := Shelf(o.side, o.price)]
                && ladder.View == old(ladder.View)[o.price := old(ladder.View)[o.price] + [o.Value()]]
      ensures o.price >= ladder.maxLevels ==>
                && Awaiting(o) && orderMap == old(orderMap) && Ids == old(Ids) && ladder.View == old(ladder.View)
                && o.Value() == old(o.Value()).(status := Cancelled)
    {
      hide Consistent, Awaiting, PriceLadder.Valid;
      AwaitingInPool(o);
      assert |ladder.View| == ladder.maxLevels by { ladder.OneViewPerLevel(); }
      var idx := ladder.PriceToIndex(o.price);
      if idx < 0 {
        MarkCancelled(o);
        return;
      }
      Shelve(ladder, other, idx, o);
    }

    method MarkCancelled(o: Order)
      requires Awaiting(o)
      modifies o`status
      ensures Awaiting(o) && o.Value() == old(o.Value()).(status := Cancelled)
    {
      hide PriceLadder.Valid, OrderPool.Valid, PriceLadder.Rows, Named, Astray;
      OwnSlot(o);
      o.status := Cancelled;
      StillAstrayBut({o});
      forall id | id in Ids && Ids[id].Freed? && id != o.id
        ensures Dangles(id)
      {
        assert old(Dangles(id));
      }
    }

    /** Maps an order that no level could hold. */
    method MapStray(o: Order)
      requires Awaiting(o) && o.price >= bids.maxLevels && o.status == Cancelled
      modifies this`orderMap, this`Ids, this`Strays, this`Lost
      ensures Consistent()
      ensures orderMap == old(orderMap)[o.id := o] && Ids == old(Ids)[o.id := Shelf(o.side, o.price)]
      ensures Lost == old(Lost) + [o.Value()]
    {
      hide OrderPool.Valid, PriceLadder.Valid, PriceLadder.Rows, AllPoint;
      OwnSlot(o);
      RegularStock();
      LostKeepsPoints(Stocked(), Ids, orderMap, o.Value(), o);
      orderMap := orderMap[o.id := o];
      Ids := Ids[o.id := Shelf(o.side, o.price)];
      Strays, Lost := Strays + [o], Lost + [o.Value()];
      OneMoreStray(o);
    }

    twostate lemma OneMoreStray(o: Order)
      requires old(Astray()) && Strays == old(Strays) + [o] && Lost == old(Lost) + [o.Value()]
      requires old(o !in StraySet()) && o in pool.slots && IsStray(o.Value())
      requires forall x :: x in pool.slots ==> x.Value() == old(x.Value())
      ensures Astray() && StraySet() == old(StraySet()) + {o}
    {
      assert forall i :: 0 <= i < |old(Strays)| ==> old(Strays)[i] in old(StraySet());
      assert Strays[|old(Strays)|] == o;
    }

    /** Puts an awaiting order into the book and maps its id whether or not it found a level. */
    method Place(ladder: PriceLadder, ghost other: PriceLadder, o: Order)
      requires Awaiting(o) && ladder.side == o.side && o.price >= 0
      requires (ladder == bids && other == asks) || (ladder == asks && other == bids)
      modifies this`orderMap, this`Ids, this`Strays, this`Lost, pool.slots
      modifies ladder`View, ladder`Orders, ladder.levels, ladder.occupied`Members, ladder.occupied.data
      ensures Consistent()
      ensures orderMap == old(orderMap)[old(o.id) := o] && Ids == old(Ids[o.id := Shelf(o.side, o.price)])
      ensures old(|ladder.View|) == bids.maxLevels
      ensures old(o.price < |ladder.View|) ==>
                ladder.View == old(ladder.View[o.price := ladder.View[o.price] + [o.Value()]]) && Lost == old(Lost)
      ensures !old(o.price < |ladder.View|) ==>
                ladder.View == old(ladder.View) && Lost == old(Lost + [o.Value().(status := Cancelled)])
    {
      hide Consistent, Awaiting;
      InsertOrder(ladder, other, o);
      if o.price < ladder.maxLevels {
        assert orderMap[o.id := o] == orderMap;
        orderMap := orderMap[o.id := o];
      } else {
        MapStray(o);
      }
    }

    lemma FreelistHead()
      requires Consistent() && pool.Free != []
      ensures OrdersAt(pool.slots, pool.Free)[0] == pool.slots[pool.Free[0]]
      ensures OrdersAt(pool.slots, pool.Free)[1..] == OrdersAt(pool.slots, pool.Free[1..])
    {
      OrdersAtPop(pool.slots, pool.Free);
    }

    /** Puts what is left of an order to rest, if the pool has a slot for it. */
    method RestOrder(ladder: PriceLadder, ghost other: PriceLadder, order: IncomingOrder, left: Quantity)
      returns (rested: bool)
      requires Consistent() && ladder.side == order.side && order.price >= 0
      requires (ladder == bids && other == asks) || (ladder == asks && other == bids)
      modifies this`orderMap, this`Ids, this`Strays, this`Lost, pool`freeHead, pool`Free, pool`Live, pool.slots
      modifies ladder`View, ladder`Orders, ladder.levels, ladder.occupied`Members, ladder.occupied.data
      ensures Consistent() && (rested <==> old(pool.Free) != [])
      ensures !rested ==>
                && Holdings() == old(Holdings()) && Ids == old(Ids)
                && ladder.View == old(ladder.View) && Lost == old(Lost)
      ensures |pool.Free| == old(|pool.Free|) - if rested then 1 else 0
      ensures rested ==>
                && Holdings() == Take(old(Holdings()), order.id)
                && Ids == old(Ids)[order.id := Shelf(order.side, order.price)]
                && |old(ladder.View)| == bids.maxLevels
                && ladder.View == (if order.price < |old(ladder.View)| then
                     old(ladder.View)[order.price := old(ladder.View)[order.price] + [EntryOf(order, left)]]
                   else old(ladder.View))
                && Lost == old(Lost) + if order.price < bids.maxLevels then [] else [StrayOf(order, left)]
    {
      hide Consistent, Awaiting, OrdersAt;
      if pool.Free != [] {
        FreelistHead();
      }
      var o := NewOrder(order, left, Resting);
      if o == null {
        return false;
      }
      assert o.id == order.id && o.side == order.side && o.price == order.price by {
        assert o.Value() == EntryOf(order, left);
      }
      Place(ladder, other, o);
      rested := true;
    }

    lemma ViewsOnLevel()
      requires Consistent()
      ensures OnLevel(Buy, bids.View) && OnLevel(Sell, asks.View)
      ensures |bids.View| == bids.maxLevels == |asks.View|
    {
      hide Named, FreedDangle, Astray, OrderPool.Valid;
      forall ladder: PriceLadder, i, j |
        (ladder == bids || ladder == asks) && 0 <= i < |ladder.View| && 0 <= j < |ladder.View[i]|
        ensures ladder.View[i][j].price == i && ladder.View[i][j].side == ladder.side
      {
        ladder.RecordedIsHere(i, j);
      }
    }

    /** Rests what is left of a matched Limit order, unless the pool is exhausted. */
    method Rest(ladder: PriceLadder, ghost other: PriceLadder, order: IncomingOrder, left: Quantity)
      returns (rested: bool)
      requires Valid() && ladder == LadderOf(order.side) && other == LadderOf(order.side.Opposite())
      requires order.otype.Limit? && order.price > 0 && 0 < left <= order.quantity
      requires Done(order, left, Book().Queue(order.side.Opposite()))
      modifies this`orderMap, this`Ids, this`Strays, this`Lost, pool`freeHead, pool`Free, pool`Live, pool.slots
      modifies ladder`View, ladder`Orders, ladder.levels, ladder.occupied`Members, ladder.occupied.data
      ensures Valid() && (rested <==> old(Kind()).HasRoom(old(Book())))
      ensures !rested ==> Book() == old(Book()) && Lost == old(Lost)
      ensures rested && order.price >= bids.maxLevels ==>
                Book() == BookSpec.Mapped(old(Book()), order) && Lost == old(Lost) + [StrayOf(order, left)]
      ensures rested && order.price < bids.maxLevels ==>
                Book() == BookSpec.Rest(old(Book()), order, left) && Lost == old(Lost)
      ensures Holdings() == if rested then Take(old(Holdings()), order.id) else old(Holdings())
    {
      hide Consistent, SoundQueue, Uncrossed, OrdersAt, Take, QueueOf, OnLevel, BookSpec.Insert;
      SidesAreApart();
      ViewsOnLevel();
      ghost var book := Book();
      if order.price < ladder.maxLevels {
        AppendInserts(order.side, ladder.View, order.price, EntryOf(order, left));
        RestKeepsInv(book, order, left);
      }
      rested := RestOrder(ladder, other, order, left);
      if rested && order.price >= bids.maxLevels {
        InvIgnoresIds(book, Book());
      }
    }

    lemma SidesAreApart()
      requires Consistent()
      ensures bids != asks && bids.side == Buy && asks.side == Sell && bids.maxLevels == asks.maxLevels
    {
    }

    /** What `validate_order` checks. */
    predicate Validate(order: IncomingOrder) {
      !(order.quantity <= 0) && !(order.price <= 0 && order.otype.Limit?) && !(order.id == 0)
    }

    /** What becomes of an accepted order that has matched against `book` and has `left` unfilled. */
    method Conclude(order: IncomingOrder, left: Quantity, matched: MatchEvent, ghost book: BookSpec.Book)
      returns (ev: MatchEvent)
      requires Valid() && Validate(order) && Book() == Swept(book, order)
      requires left == MatchIn(book, order).left && matched == MatchIn(book, order).event
      requires 0 <= left <= order.quantity && Done(order, left, Book().Queue(order.side.Opposite()))
      modifies this`orderMap, this`Ids, this`Strays, this`Lost, pool`freeHead, pool`Free, pool`Live, pool.slots
      modifies bids`View, bids`Orders, bids.levels, bids.occupied`Members, bids.occupied.data
      modifies asks`View, asks`Orders, asks.levels, asks.occupied`Members, asks.occupied.data
      ensures Valid() && Step(Book(), ev) == Process(old(Kind()), book, order)
      ensures Kind() == Next(old(Kind()), book, order)
      ensures Holdings() == if Rests(old(Kind()), book, order) then Take(old(Holdings()), order.id) else old(Holdings())
    {
      hide Valid, Holdings, Take, MatchIn, Swept, BookSpec.Rest, BookSpec.Mapped, Book;
      var filled := order.quantity - left;
      var shouldRest := false;
      var finalStatus: OrderStatus;
      if left == 0 {
        finalStatus := Filled;
      } else if filled > 0 {
        if order.otype.IOC? || order.otype.FOK? {
          finalStatus := Cancelled;
        } else if order.otype.Limit? {
          shouldRest, finalStatus := true, Resting;
        } else {
          finalStatus := Cancelled;
        }
      } else {
        if order.otype.Market? || order.otype.IOC? || order.otype.FOK? {
          finalStatus := Cancelled;
        } else {
          shouldRest, finalStatus := true, Resting;
        }
      }
      if shouldRest {
        var rested := Rest(LadderOf(order.side), LadderOf(order.side.Opposite()), order, left);
        if !rested {
          finalStatus, shouldRest := Cancelled, false;
        }
      }
      ev := AddReport(matched, Report(order.id, finalStatus, order.side, order.price, filled, left));
    }

    /**
     What one order does to the id map and the freelist. Every filled order is
     released, in the order of the fills; then an order that comes to rest takes the
     next free one, even if it finds no level. `orders` are those of the opposite
     side in their priority.
     */
    ghost predicate HoldingsFollow(m: Machine, book: BookSpec.Book, h: Holdings, orders: seq<Order>,
                                   order: IncomingOrder, h': Holdings)
    {
      var reports := MatchIn(book, order).event.reports;
      if !m.Accepts(order) then h' == h
      else
        && |reports| <= |orders|
        && var released := ReleaseAll(h, reports, orders);
        h' == if Rests(m, book, order) then Take(released, order.id) else released
    }

    /** Every order, whatever its id: the engine does what the specification says and stays valid. */
    method ProcessOrder(order: IncomingOrder) returns (ev: MatchEvent)
      requires Valid()
      modifies this`orderMap, this`Ids, this`Strays, this`Lost, pool`freeHead, pool`Free, pool`Live, pool.slots
      modifies bids`View, bids`Orders, bids.levels, bids.occupied`Members, bids.occupied.data
      modifies asks`View, asks`Orders, asks.levels, asks.occupied`Members, asks.occupied.data
      ensures Valid() && Step(Book(), ev) == Process(old(Kind()), old(Book()), order)
      ensures Kind() == Next(old(Kind()), old(Book()), order)
      ensures HoldingsFollow(old(Kind()), old(Book()), old(Holdings()), old(Objects(order.side.Opposite())), order,
                             Holdings())
      ensures Rules.OrderRules(old(Kind()), old(Book()), order, Rules.Answer(Kind(), Book(), ev))
    {
      hide Valid, Consistent, Inv, Holdings, Take, ReleaseAll, MatchIn, Swept, Process, Next, Rests, Misfiles, Objects;
      hide Since, Rules.OrderRules, Rules.SweepRules;
      ValidHasInv();
      Rules.ProcessByTheRules(Kind(), Book(), order);
      if !Validate(order) {
        RefusedChangesNothing(order);
        ev := MatchEvent([], [Report(order.id, Cancelled, order.side, order.price, 0, order.quantity)]);
        return;
      }
      SweptIsDone(Book(), order);
      var left: Quantity;
      if order.side.Buy? {
        left, ev := MatchBuy(order);
        SinceHoldings(old(Now(Sell)), Sell, ev);
      } else {
        left, ev := MatchSell(order);
        SinceHoldings(old(Now(Buy)), Buy, ev);
      }
      ev := Conclude(order, left, ev, old(Book()));
    }

    lemma SinceHoldings(start: Start, side: Side, ev: MatchEvent)
      requires Since(start, side, ev)
      ensures |ev.reports| <= |start.orders| && Holdings() == ReleaseAll(start.holdings, ev.reports, start.orders)
    {
    }

    lemma RefusedChangesNothing(order: IncomingOrder)
      requires !Validate(order)
      ensures !Kind().Accepts(order) && !Misfiles(Kind(), Book(), order)
      ensures Process(Kind(), Book(), order) == Reject(Book(), order) && Next(Kind(), Book(), order) == Kind()
    {
    }

    lemma ValidHasInv()
      requires Valid()
      ensures Inv(Book())
    {
    }

    // ---------- Cancelling ----------

    /** A mapped order with a level is on it, the last of its id there. */
    lemma MappedIsShelved(id: OrderID)
      requires Consistent() && id in Ids && Ids[id].Shelf? && 0 <= Ids[id].price < bids.maxLevels
      ensures id in orderMap
      ensures var p, o := Ids[id], orderMap[id];
              var ladder := LadderOf(p.side);
              && p.price < |ladder.View| && p.price < |ladder.levels| && p.price < ladder.maxLevels
              && var k := FindLast(ladder.View[p.price], id, p.price);
              && k < |ladder.View[p.price]| && k < |ladder.levels[p.price].Contents|
              && ladder.levels[p.price].Contents[k] == o && ladder.View[p.price][k] == o.Value()
              && o.id == id && o.side == p.side && o.price == p.price && o in pool.Live && o in pool.slots
    {
      hide OrderPool.Valid, FreedDangle, Astray, FindLast;
      var p := Ids[id];
      var ladder := LadderOf(p.side);
      assert Points(Stocked(), id, p, orderMap[id]);
      assert ladder.LevelOk(p.price);
      var k := FindLast(ladder.View[p.price], id, p.price);
      ladder.RecordedIsHere(p.price, k);
      OwnSlot(orderMap[id]);
    }

    /** A mapped order without a level is lost, the last lost one of its id and price. */
    lemma MappedIsStray(id: OrderID)
      requires Consistent() && id in Ids && Ids[id].Shelf? && !(0 <= Ids[id].price < bids.maxLevels)
      ensures id in orderMap && Ids[id].price >= bids.maxLevels
      ensures var o := orderMap[id];
              var k := FindLast(Lost, id, Ids[id].price);
              && k < |Lost| == |Strays| && Strays[k] == o && Lost[k] == o.Value() && o.id == id && IsStray(o.Value())
              && o in pool.Live && o in pool.slots && o in StraySet()
    {
      hide OrderPool.Valid, FreedDangle, PriceLadder.Valid, FindLast;
      bids.OneViewPerLevel();
      asks.OneViewPerLevel();
      assert Points(Stocked(), id, Ids[id], orderMap[id]);
      var k := FindLast(Lost, id, Ids[id].price);
      assert PointsIn(Lost, Strays, id, Ids[id].price, orderMap[id]);
      assert Strays[k] in StraySet() && Lost[k] == Strays[k].Value();
      OwnSlot(orderMap[id]);
    }

    /** What the specification finds under an id is the order that the map names. */
    lemma NamesLast(id: OrderID)
      requires Consistent() && id in Ids && Ids[id].Shelf? && 0 <= Ids[id].price < bids.maxLevels
      ensures id in orderMap && !IsLost(Kind(), Book(), id)
      ensures var p, q := Ids[id], Book().Queue(Ids[id].side);
              var n := FindLast(q, id, p.price);
              && n < |q| && q[n] == orderMap[id].Value()
              && var v := LadderOf(p.side).View;
              && p.price < |v|
              && var k := FindLast(v[p.price], id, p.price);
              && k < |v[p.price]| && QueueOf(p.side, v[p.price := RemoveAt(v[p.price], k)]) == RemoveAt(q, n)
    {
      hide Consistent, OnLevel, QueueOf, FindLast;
      var p := Ids[id];
      var v := LadderOf(p.side).View;
      MappedIsShelved(id);
      ViewsOnLevel();
      FindLastOfLevel(p.side, v, p.price, id);
      var n := RemoveFromLevel(p.side, v, p.price, FindLast(v[p.price], id, p.price));
    }

    /** Every mapped id names an order; while ids are distinct and none is lost, the keys are the resting ids. */
    lemma MapHoldsRestingIds(id: OrderID)
      requires Consistent()
      ensures Runs.AllNamed(Kind(), Book()) && orderMap.Keys == Book().ids.Keys
      ensures Unique(Kind(), Book()) && IsResting(Book(), id) ==> id in orderMap
      ensures Runs.AllShelved(Kind(), Book()) && id in orderMap ==> IsResting(Book(), id)
    {
      hide Consistent, FindLast, QueueOf, AllPoint;
      SameIds();
      forall x | x in Ids
        ensures Runs.Names(Kind(), Book(), x)
        ensures Ids[x].Shelf? && Ids[x].price < bids.maxLevels ==> IsResting(Book(), x)
      {
        if Ids[x].Shelf? {
          if 0 <= Ids[x].price < bids.maxLevels {
            NamesLast(x);
            var q := Book().Queue(Ids[x].side);
            assert Matches(q[FindLast(q, x, Ids[x].price)], x, Ids[x].price);
          } else {
            MappedIsStray(x);
            assert Matches(Lost[FindLast(Lost, x, Ids[x].price)], x, Ids[x].price);
          }
        }
      }
    }

    lemma SameIds()
      requires Consistent()
      ensures orderMap.Keys == Ids.Keys
    {
    }

    /** The mapped orders, but for freed ones. */
    ghost function NamedOrders(): map<OrderID, Order>
      reads this`orderMap, this`Ids
    {
      map id | id in orderMap && id in Ids && Ids[id].Shelf? :: orderMap[id]
    }

    /**
     Mapped orders, but for freed ones, and free slots together never exceed the
     usable slots; they fill them exactly if every live order is the one its id names.
     */
    lemma MapFillsPool()
      requires Consistent()
      ensures |NamedOrders()| + |pool.Free| <= pool.Usable()
      ensures |NamedOrders()| + |pool.Free| == pool.Usable() <==>
                forall o :: o in pool.Live ==> o.id in NamedOrders() && NamedOrders()[o.id] == o
    {
      hide Shelved, Astray, Named, FreedDangle, PriceLadder.Valid, FindLast;
      pool.SlotsArePartitioned();
      hide OrderPool.Valid;
      var named := NamedOrders();
      forall id | id in named
        ensures named[id] in pool.Live && named[id].id == id
      {
        if 0 <= Ids[id].price < bids.maxLevels {
          MappedIsShelved(id);
        } else {
          MappedIsStray(id);
        }
      }
      MappedCount(named, pool.Live);
    }

    /** `remove_order_from_book` and `deallocate` for an order on its level. */
    method TakeOut(order: Order, ghost id: OrderID)
      requires Valid() && id in Ids && Ids[id].Shelf? && 0 <= Ids[id].price < bids.maxLevels
      requires id in orderMap && orderMap[id] == order
      modifies this`orderMap, this`Ids, pool`freeHead, pool`Free, pool`Live, pool.slots
      modifies bids`View, bids`Orders, bids.levels, bids.occupied`Members, bids.occupied.data
      modifies asks`View, asks`Orders, asks.levels, asks.occupied`Members, asks.occupied.data
      ensures Valid()
      ensures Step(Book(), AddReport(NO_EVENT, CancelReport(old(order.Value())))) == Cancel(Kind(), old(Book()), id)
      ensures Holdings() == Release(old(Holdings()), id, order)
    {
      hide *;
      ValidIsConsistent();
      MappedSide(id);
      OrdersInPool();
      if order.side == Buy {
        TakeOutOf(bids, asks, order, id);
      } else {
        TakeOutOf(asks, bids, order, id);
      }
    }

    lemma MappedSide(id: OrderID)
      requires Consistent() && id in Ids && Ids[id].Shelf? && 0 <= Ids[id].price < bids.maxLevels
      ensures id in orderMap && orderMap[id].side == Ids[id].side && orderMap[id] in pool.slots
      ensures bids.side == Buy && asks.side == Sell
    {
      hide Consistent;
      MappedIsShelved(id);
      SidesAreApart();
    }

    /** The same, with the ladder of the order's side. */
    method TakeOutOf(ladder: PriceLadder, ghost other: PriceLadder, order: Order, ghost id: OrderID)
      requires Valid() && id in Ids && Ids[id].Shelf? && 0 <= Ids[id].price < bids.maxLevels
      requires id in orderMap && orderMap[id] == order && ladder.side == Ids[id].side
      requires (ladder == bids && other == asks) || (ladder == asks && other == bids)
      modifies this`orderMap, this`Ids, pool`freeHead, pool`Free, pool`Live, order`poolIndex
      modifies ladder`View, ladder`Orders, ladder.levels, ladder.occupied`Members, ladder.occupied.data
      modifies ladder.Orders`prev, ladder.Orders`next
      ensures Valid()
      ensures Step(Book(), AddReport(NO_EVENT, CancelReport(old(order.Value())))) == Cancel(Kind(), old(Book()), id)
      ensures Holdings() == Release(old(Holdings()), id, order)
    {
      hide *;
      ghost var k, cancelled := WhereToTakeOut(ladder, other, id);
      var idx := ladder.PriceToIndex(order.price);
      Discard(ladder, other, idx, order, k);
      NowValid(ladder, other, cancelled.book);
    }

    /** Where the order is that a cancel takes out, and what that makes of the book. */
    lemma WhereToTakeOut(ladder: PriceLadder, other: PriceLadder, id: OrderID) returns (k: nat, cancelled: Step)
      requires Valid() && id in Ids && Ids[id].Shelf? && 0 <= Ids[id].price < bids.maxLevels
      requires (ladder == bids && other == asks) || (ladder == asks && other == bids)
      requires ladder.side == Ids[id].side
      ensures Consistent() && id in orderMap && ladder != other
      ensures var o := orderMap[id];
              && o.id == id && 0 <= o.price < ladder.maxLevels && ladder.PriceToIndex(o.price) == o.price
              && k < |ladder.levels[o.price].Contents| && ladder.levels[o.price].Contents[k] == o
              && o.price < |ladder.View| && k < |ladder.View[o.price]|
              && cancelled == Cancel(Kind(), Book(), id)
              && cancelled.book.Size() == Book().Size() - 1 && Inv(cancelled.book)
              && cancelled.book == Book().With(ladder.side,
                   QueueOf(ladder.side, ladder.View[o.price := RemoveAt(ladder.View[o.price], k)])).(ids := Ids - {id})
              && cancelled.event == AddReport(NO_EVENT, CancelReport(o.Value()))
    {
      hide Valid, Consistent, Inv, FindLast, QueueOf, Cancel, CancelReport, AddReport, RemoveAt, Book;
      hide PriceLadder.Valid;
      ValidIsConsistent();
      MappedIsShelved(id);
      SidesAreApart();
      k := FindLast(ladder.View[Ids[id].price], id, Ids[id].price);
      CancelIsTakeOut(id);
      ValidHasInv();
      CancelKeepsInv(Kind(), Book(), id);
      cancelled := Cancel(Kind(), Book(), id);
    }

    /** Only one ladder, the map and the freelist have changed, to what they are in a sound book with one order less. */
    twostate lemma NowValid(ladder: PriceLadder, new other: PriceLadder, new book: BookSpec.Book)
      requires old(Valid()) && Consistent() && Lost == old(Lost) && |pool.Free| == old(|pool.Free|) + 1
      requires (ladder == bids && other == asks) || (ladder == asks && other == bids)
      requires other.View == old(other.View)
      requires book == old(Book()).With(ladder.side, QueueOf(ladder.side, ladder.View)).(ids := Ids)
      requires Inv(book) && book.Size() == old(Book()).Size() - 1
      ensures Valid() && Book() == book
    {
      hide Inv, QueueOf;
      SidesAreApart();
      hide Consistent;
      OneSideChanged(ladder, other);
    }

    /** Cancelling an id with a level is taking the order out of its level. */
    lemma CancelIsTakeOut(id: OrderID)
      requires Consistent() && id in Ids && Ids[id].Shelf? && 0 <= Ids[id].price < bids.maxLevels
      ensures id in orderMap && Ids[id].price < |LadderOf(Ids[id].side).View|
      ensures var p, v := Ids[id], LadderOf(Ids[id].side).View;
              var k := FindLast(v[p.price], id, p.price);
              && k < |v[p.price]|
              && Cancel(Kind(), Book(), id)
                 == Step(Book().With(p.side,
                           QueueOf(p.side, v[p.price := RemoveAt(v[p.price], k)])).(ids := Ids - {id}),
                         AddReport(NO_EVENT, CancelReport(orderMap[id].Value())))
              && Cancel(Kind(), Book(), id).book.Size() == Book().Size() - 1
    {
      hide Consistent, FindLast, QueueOf, IsLost, AddReport, CancelReport;
      NamesLast(id);
    }

    /** Gives the slot of a lost order back; its id stays mapped to it. */
    method GiveBack(order: Order, ghost id: OrderID, ghost k: nat)
      requires Consistent() && id in Ids && k < |Strays| == |Lost| && Lost[k].id == id
      requires Strays[k] == order && order in StraySet() && order in pool.Live
      requires order.id == id && order.status == Cancelled
      requires id in orderMap && orderMap[id] == order
      modifies this`Ids, this`Strays, this`Lost, pool`freeHead, pool`Free, pool`Live, order`poolIndex
      ensures Consistent() && Ids == old(Ids)[id := Freed] && Lost == RemoveAt(old(Lost), k)
      ensures Holdings() == OrderStore.Holdings(orderMap, [order] + old(Holdings()).free)
      ensures |pool.Free| == old(|pool.Free|) + 1
    {
      hide OrderPool.Valid, OrdersAt, PriceLadder.Valid, PriceLadder.Rows, AllPoint, Astray, FreedDangle, RemoveAt;
      hide Separate, Shelved, StraySet, Stocked;
      StrayIsOffLadder(order);
      OwnSlot(order);
      OrdersAtPush(pool.slots, order.poolIndex, pool.Free);
      WithoutStray(id, k);
      pool.Deallocate(order);
      Strays, Lost := RemoveAt(Strays, k), RemoveAt(Lost, k);
      Ids := Ids[id := Freed];
      SameStock(k);
      OneStrayLess(k);
      OneLessShelved(order);
      NowDangles(order, id);
    }

    lemma StrayIsOffLadder(order: Order)
      requires Shelved() && order in StraySet()
      ensures order !in bids.Orders && order !in asks.Orders
    {
    }

    twostate lemma OneLessShelved(order: Order)
      requires old(Shelved()) && old(order in StraySet()) && StraySet() == old(StraySet()) - {order}
      requires pool.Live == old(pool.Live) - {order}
      requires bids.Orders == old(bids.Orders) && asks.Orders == old(asks.Orders)
      ensures Shelved()
    {
      hide StraySet;
    }

    lemma WithoutStray(id: OrderID, k: nat)
      requires Consistent() && id in Ids && k < |Strays| == |Lost| && Lost[k].id == id
      ensures var s := Stocked().(lost := RemoveAt(Lost, k), strays := RemoveAt(Strays, k));
              AllPoint(s, Ids[id := Freed], orderMap)
    {
      hide PriceLadder.Valid, OrderPool.Valid, PriceLadder.Rows, AllPoint, Astray, FreedDangle, RemoveAt;
      RegularStock();
      FreedKeepsPoints(Stocked(), Ids, orderMap, k);
    }

    twostate lemma SameStock(k: nat)
      requires k < |old(Lost)| && k < |old(Strays)|
      requires bids.View == old(bids.View) && asks.View == old(asks.View)
      requires bids.Rows() == old(bids.Rows()) && asks.Rows() == old(asks.Rows())
      requires Lost == RemoveAt(old(Lost), k) && Strays == RemoveAt(old(Strays), k)
      ensures Stocked() == old(Stocked()).(lost := RemoveAt(old(Lost), k), strays := RemoveAt(old(Strays), k))
    {
    }

    /** The cancel of an order that no level could hold. */
    method FreeStray(order: Order, ghost id: OrderID)
      requires Valid() && id in Ids && Ids[id].Shelf? && !(0 <= Ids[id].price < bids.maxLevels)
      requires id in orderMap && orderMap[id] == order
      modifies this`Ids, this`Strays, this`Lost, pool`freeHead, pool`Free, pool`Live, order`poolIndex
      ensures Valid()
      ensures Step(Book(), AddReport(NO_EVENT, CancelReport(old(order.Value()))))
              == Cancel(old(Kind()), old(Book()), id)
      ensures IsLost(old(Kind()), old(Book()), id) && Kind() == Released(old(Kind()), old(Book()), id)
      ensures Holdings() == OrderStore.Holdings(orderMap, [order] + old(Holdings()).free)
    {
      hide Consistent, OrdersAt, Inv, QueueOf, FindLast, Cancel, Released, IsLost, CancelReport, AddReport, RemoveAt;
      MappedIsStray(id);
      CancelIsFreeLost(id);
      ghost var k := FindLast(Lost, id, Ids[id].price);
      LostLength(k);
      GiveBack(order, id, k);
      InvIgnoresIds(old(Book()), Book());
    }

    lemma LostLength(k: nat)
      requires k < |Lost|
      ensures |RemoveAt(Lost, k)| == |Lost| - 1
    {
    }

    lemma CancelIsFreeLost(id: OrderID)
      requires id in Ids && Ids[id].Shelf? && Ids[id].price >= bids.maxLevels
      requires FindLast(Lost, id, Ids[id].price) < |Lost|
      ensures IsLost(Kind(), Book(), id)
      ensures Cancel(Kind(), Book(), id) == FreeLost(Book(), id, Lost[FindLast(Lost, id, Ids[id].price)])
      ensures Released(Kind(), Book(), id) == Kind().(lost := RemoveAt(Lost, FindLast(Lost, id, Ids[id].price)))
    {
    }

    twostate lemma OneStrayLess(k: nat)
      requires old(Astray()) && k < |old(Strays)| == |old(Lost)|
      requires Strays == RemoveAt(old(Strays), k) && Lost == RemoveAt(old(Lost), k)
      requires forall x :: x in pool.slots ==> x.Value() == old(x.Value())
      ensures Astray() && StraySet() == old(StraySet()) - {old(Strays)[k]}
    {
      RemoveAtMembers(old(Strays), k);
    }

    /** The slot of a cancelled stray is free and still marked; nothing else that freed ids depend on has changed. */
    twostate lemma NowDangles(order: Order, new id: OrderID)
      requires old(FreedDangle()) && unchanged(this`orderMap) && id in orderMap && orderMap[id] == order
      requires order in pool.slots && order !in pool.Live && order.status == Cancelled
      requires pool.Live == old(pool.Live) - {order} && Ids == old(Ids)[id := Freed]
      requires forall x :: x in pool.slots ==> x.id == old(x.id) && x.status == old(x.status)
      ensures FreedDangle()
    {
      forall x | x in Ids && Ids[x].Freed?
        ensures Dangles(x)
      {
        assert x != id ==> old(Dangles(x));
      }
    }

    /**
     Cancelling an id that is not mapped does nothing, and a resting order is taken
     out. A lost order is reported and its slot freed, while its id stays mapped to
     it; only what a second cancel of that id would do is left open.
     */
    method CancelOrder(id: OrderID) returns (ev: MatchEvent)
      requires Valid() && Cancellable(Book(), id)
      modifies this`orderMap, this`Ids, this`Strays, this`Lost, pool`freeHead, pool`Free, pool`Live, pool.slots
      modifies bids`View, bids`Orders, bids.levels, bids.occupied`Members, bids.occupied.data
      modifies asks`View, asks`Orders, asks.levels, asks.occupied`Members, asks.occupied.data
      ensures Valid() && Step(Book(), ev) == Cancel(old(Kind()), old(Book()), id)
      ensures Kind() == Released(old(Kind()), old(Book()), id)
      ensures id !in old(orderMap) ==> Holdings() == old(Holdings())
      ensures id in old(orderMap) ==>
                Holdings() == if IsLost(old(Kind()), old(Book()), id)
                              then OrderStore.Holdings(old(orderMap), [old(orderMap)[id]] + old(Holdings()).free)
                              else Release(old(Holdings()), id, old(orderMap)[id])
      ensures Rules.CancelRules(old(Kind()), old(Book()), id, Rules.Answer(Kind(), Book(), ev))
    {
      hide Valid, Consistent, Inv, Holdings, Release, Cancel, Released, IsLost, QueueOf, Rules.CancelRules;
      Rules.CancelByTheRules(Kind(), Book(), id);
      ValidIsConsistent();
      SameIds();
      if id !in orderMap {
        UnmappedCancel(id);
        return NO_EVENT;
      }
      var order := orderMap[id];
      MappedPrice(id);
      ev := MatchEvent([], [Report(order.id, Cancelled, order.side, order.price,
                                   order.quantity - order.remaining, order.remaining)]);
      assert ev == AddReport(NO_EVENT, CancelReport(order.Value()));
      hide AddReport, CancelReport, Order.Value, LadderOf;
      var idx := LadderOf(order.side).PriceToIndex(order.price);
      if idx < 0 {
        FreeStray(order, id);
      } else {
        NamesLast(id);
        NothingReleased(id);
        TakeOut(order, id);
      }
    }

    lemma ValidIsConsistent()
      requires Valid()
      ensures Consistent()
    {
    }

    lemma UnmappedCancel(id: OrderID)
      requires id !in Ids
      ensures Cancel(Kind(), Book(), id) == Step(Book(), NO_EVENT) && Released(Kind(), Book(), id) == Kind()
    {
    }

    lemma NothingReleased(id: OrderID)
      requires !IsLost(Kind(), Book(), id)
      ensures Released(Kind(), Book(), id) == Kind()
    {
    }

    /** The price of a mapped order is the one the map says, so it has a level exactly if the order is not lost. */
    lemma MappedPrice(id: OrderID)
      requires Consistent() && id in Ids && Ids[id].Shelf?
      ensures id in orderMap && orderMap[id].id == id && orderMap[id] in pool.slots
      ensures bids.maxLevels == asks.maxLevels
      ensures 0 <= orderMap[id].price < bids.maxLevels <==> 0 <= Ids[id].price < bids.maxLevels
    {
      hide Consistent, FindLast;
      SidesAreApart();
      if 0 <= Ids[id].price < bids.maxLevels {
        MappedIsShelved(id);
      } else {
        MappedIsStray(id);
      }
    }

    /** The best bid price, or 0 without bids. */
    method BestBid() returns (price: Price)
      requires Valid()
      ensures price == BestPrice(Book().bids)
    {
      price := bids.BestBidPrice();
      BestIsFirst(bids, price);
    }

    /** The best ask price, or 0 without asks. */
    method BestAsk() returns (price: Price)
      requires Valid()
      ensures price == BestPrice(Book().asks)
    {
      price := asks.BestAskPrice();
      BestIsFirst(asks, price);
    }

    /** The best marked level is the price of the first order of the side. */
    lemma BestIsFirst(ladder: PriceLadder, price: Price)
      requires Consistent() && (ladder == bids || ladder == asks)
      requires ladder.occupied.Members == {} ==> price == 0
      requires ladder.occupied.Members != {} ==>
                 price in ladder.occupied.Members
                 && forall m :: m in ladder.occupied.Members ==> !Better(ladder.side, m, price)
      ensures price == BestPrice(Book().Queue(ladder.side))
    {
      hide Named, FreedDangle, Astray, OrderPool.Valid, Shelved, PriceLadder.Linked;
      var v := ladder.View;
      if ladder.occupied.Members == {} {
        NoLevels(ladder.side, v);
      } else {
        ladder.RecordedIsHere(price, 0);
        BestLevelIsFront(ladder.side, v, price);
      }
    }

    method RestingQuantity(side: Side, price: Price) returns (total: Quantity)
      requires Valid()
      ensures total == TotalAt(Book().Queue(side), price)
    {
      hide Inv;
      ViewsOnLevel();
      var ladder := LadderOf(side);
      var idx := ladder.PriceToIndex(price);
      if idx < 0 {
        TotalAtOutside(side, ladder.View, price);
        return 0;
      }
      TotalAtIsLevel(side, ladder.View, price);
      total := ladder.RestingQuantity(idx);
    }

    /** Every mapped order carries its own id and rests. */
    ghost predicate MapPasses()
      reads this`orderMap, orderMap.Values
    {
      forall id :: id in orderMap ==>
        orderMap[id].id == id && (orderMap[id].status == Resting || orderMap[id].status == PartiallyFilled)
    }

    /** The best marked bid is below the best marked ask, unless one of them is at price 0. */
    ghost predicate BestPasses()
      reads bids.occupied, asks.occupied
    {
      forall b, a {:trigger b in bids.occupied.Members, a in asks.occupied.Members} ::
        b in bids.occupied.Members && a in asks.occupied.Members && b > 0 && a > 0
        && (forall m :: m in bids.occupied.Members ==> m <= b) && (forall m :: m in asks.occupied.Members ==> a <= m)
        ==> b < a
    }

    /** What the executable check looks at. */
    ghost predicate Passes()
      reads this`orderMap, orderMap.Values, bids`View, asks`View, bids.occupied, asks.occupied
    {
      BestPasses() && bids.BitsAgree() && asks.BitsAgree() && MapPasses()
    }

    method VerifyMap() returns (ok: bool)
      ensures ok <==> MapPasses()
    {
      var ids := orderMap.Keys;
      while ids != {}
        invariant ids <= orderMap.Keys
        invariant forall id :: id in orderMap && id !in ids ==>
                    orderMap[id].id == id && (orderMap[id].status == Resting || orderMap[id].status == PartiallyFilled)
        decreases |ids|
      {
        var id :| id in ids;
        var order := orderMap[id];
        if order.id != id {
          return false;
        }
        if order.status != Resting && order.status != PartiallyFilled {
          return false;
        }
        ids := ids - {id};
      }
      ok := true;
    }

    /** The executable check of the engine finds exactly what it looks at, in whatever state the parts agree or not. */
    method VerifyInvariants() returns (ok: bool)
      requires bids.Linked() && bids.occupied.Valid() && asks.Linked() && asks.occupied.Valid()
      ensures ok <==> Passes()
    {
      hide PriceLadder.Linked;
      var bb := bids.BestBidPrice();
      var ba := asks.BestAskPrice();
      if bb > 0 && ba > 0 && bb >= ba {
        return false;
      }
      var bidsOk := bids.VerifyInvariants();
      if !bidsOk {
        return false;
      }
      var asksOk := asks.VerifyInvariants();
      if !asksOk {
        return false;
      }
      ok := VerifyMap();
    }

    /** A mapped order passes the check exactly if it has a level. */
    lemma MappedPasses(id: OrderID)
      requires Valid() && id in Ids
      ensures id in orderMap
      ensures var o := orderMap[id];
              o.id == id && (o.status == Resting || o.status == PartiallyFilled)
              <==> Ids[id].Shelf? && Ids[id].price < bids.maxLevels
    {
      hide Consistent, QueueOf, FindLast;
      if Ids[id].Freed? {
        FreedIsMarked(id);
      } else if 0 <= Ids[id].price < bids.maxLevels {
        NamesLast(id);
        MappedIsShelved(id);
        var n := FindLast(Book().Queue(Ids[id].side), id, Ids[id].price);
        assert Book().Queue(Ids[id].side)[n].IsSound();
      } else {
        MappedIsStray(id);
      }
    }

    lemma FreedIsMarked(id: OrderID)
      requires Consistent() && id in Ids && Ids[id].Freed?
      ensures id in orderMap && (orderMap[id].id == id ==> orderMap[id].status == Cancelled)
    {
      hide Separate, OrderPool.Valid, Shelved, Astray, PriceLadder.Valid, Named;
      assert Dangles(id);
    }

    /** In a valid state the executable check succeeds exactly if every mapped order has a level. */
    lemma ValidPasses()
      requires Valid()
      ensures bids.Linked() && bids.occupied.Valid() && asks.Linked() && asks.occupied.Valid()
      ensures Passes() <==> Runs.AllShelved(Kind(), Book())
    {
      LaddersAreLinked();
      SameIds();
      ValidBestPasses();
      hide Consistent, Inv, BestPasses, PriceLadder.BitsAgree, PriceLadder.Linked, QueueOf;
      forall id | id in orderMap
        ensures orderMap[id].id == id && (orderMap[id].status == Resting || orderMap[id].status == PartiallyFilled)
                <==> Ids[id].Shelf? && Ids[id].price < bids.maxLevels
      {
        MappedPasses(id);
      }
    }

    lemma LaddersAreLinked()
      requires Consistent()
      ensures bids.Linked() && bids.occupied.Valid() && asks.Linked() && asks.occupied.Valid()
      ensures bids.BitsAgree() && asks.BitsAgree()
    {
      hide PriceLadder.Linked, PriceLadder.BitsAgree, Named, FreedDangle, Astray, OrderPool.Valid, Shelved, Separate;
    }

    lemma ValidBestPasses()
      requires Valid()
      ensures BestPasses()
    {
      SidesAreApart();
      hide Consistent, SoundQueue, PriceLadder.Valid;
      forall b, a | b in bids.occupied.Members && a in asks.occupied.Members
        && (forall m :: m in bids.occupied.Members ==> m <= b) && (forall m :: m in asks.occupied.Members ==> a <= m)
        ensures b < a
      {
        BestIsFirst(bids, b);
        BestIsFirst(asks, a);
        OccupiedMeansQueued(bids, b);
        OccupiedMeansQueued(asks, a);
      }
    }

    lemma OccupiedMeansQueued(ladder: PriceLadder, i: int)
      requires Consistent() && (ladder == bids || ladder == asks) && i in ladder.occupied.Members
      ensures Book().Queue(ladder.side) != []
    {
      hide Named, FreedDangle, Astray, OrderPool.Valid, Shelved, PriceLadder.Linked;
      QueueSplit(ladder.side, ladder.View, i, ladder.View[i]);
    }

    /** Each bitset holds exactly the non-empty levels. */
    lemma BitsAreLevels()
      requires Consistent()
      ensures |bids.View| == bids.maxLevels && bids.occupied.Members == NonEmptyLevels(bids.View)
      ensures |asks.View| == asks.maxLevels && asks.occupied.Members == NonEmptyLevels(asks.View)
    {
      hide PriceLadder.Linked, Named, FreedDangle, Astray, OrderPool.Valid, Shelved, Separate;
    }

    /**
     Resting an order that trades with nobody and then cancelling it, whether or not
     its id was in use: the levels, the bitsets and the freelist are as they were, and
     the id map but for that id.
     */
    method RestThenCancel(order: IncomingOrder) returns (resting: MatchEvent, cancelled: MatchEvent)
      requires Valid() && Rests(Kind(), Book(), order)
      requires MatchIn(Book(), order).left == order.quantity && order.price < bids.maxLevels
      modifies this`orderMap, this`Ids, this`Strays, this`Lost, pool`freeHead, pool`Free, pool`Live, pool.slots
      modifies bids`View, bids`Orders, bids.levels, bids.occupied`Members, bids.occupied.data
      modifies asks`View, asks`Orders, asks.levels, asks.occupied`Members, asks.occupied.data
      ensures Valid() && Book() == old(Book()).(ids := old(Book()).ids - {order.id})
      ensures bids.View == old(bids.View) && bids.occupied.Members == old(bids.occupied.Members)
      ensures asks.View == old(asks.View) && asks.occupied.Members == old(asks.occupied.Members)
      ensures Holdings() == OrderStore.Holdings(old(orderMap) - {order.id}, old(Holdings()).free) && Lost == old(Lost)
      ensures resting == MatchEvent([], [OwnReport(order, Resting, order.quantity)])
      ensures cancelled == MatchEvent([], [Report(order.id, Cancelled, order.side, order.price, 0, order.quantity)])
    {
      hide Valid, Consistent, Process, MatchIn, Cancel, IsLost, Take, Release, QueueOf, Swept;
      ValidIsConsistent();
      UnfilledHoldings(order);
      ViewsOnLevel();
      BitsAreLevels();
      resting := ProcessOrder(order);
      label rested:
      ValidIsConsistent();
      SameIds();
      cancelled := CancelOrder(order.id);
      ValidIsConsistent();
      ViewsOnLevel();
      BitsAreLevels();
      QueueDeterminesLevels(Buy, bids.View, old(bids.View));
      QueueDeterminesLevels(Sell, asks.View, old(asks.View));
    }

    /** What resting and cancelling an order that trades with nobody comes to. */
    lemma UnfilledHoldings(order: IncomingOrder)
      requires Valid() && Rests(Kind(), Book(), order)
      requires MatchIn(Book(), order).left == order.quantity && order.price < bids.maxLevels
      ensures MatchIn(Book(), order).event == NO_EVENT && order.price > 0
      ensures var book := Process(Kind(), Book(), order).book;
              && Process(Kind(), Book(), order).event == MatchEvent([], [OwnReport(order, Resting, order.quantity)])
              && Next(Kind(), Book(), order) == Kind()
              && order.id in book.ids && book.ids[order.id] == Shelf(order.side, order.price)
              && Cancellable(book, order.id) && !IsLost(Kind(), book, order.id)
              && Released(Kind(), book, order.id) == Kind()
              && Cancel(Kind(), book, order.id)
                 == Step(Book().(ids := Book().ids - {order.id}),
                         MatchEvent([], [Report(order.id, Cancelled, order.side, order.price, 0, order.quantity)]))
      ensures Holdings().free != [] && Take(Holdings(), order.id).mapped[order.id] == Holdings().free[0]
      ensures Release(Take(Holdings(), order.id), order.id, Holdings().free[0])
              == OrderStore.Holdings(orderMap - {order.id}, Holdings().free)
    {
      ValidHasInv();
      ProcessCancelRoundTrip(Kind(), Book(), order);
      UnfilledMatch(Kind(), Book(), order);
      RestsOnLevel(Kind(), Book(), order);
      RoomIsFree(order);
      TakeReleaseRoundTrip(Holdings(), order.id);
      hide Valid, MatchIn, Cancel, Process, QueueOf, BookSpec.Insert, Swept;
    }

    lemma RoomIsFree(order: IncomingOrder)
      requires Valid() && Kind().HasRoom(Book())
      ensures pool.Free != []
    {
    }
  }

  /** Matching in two parts also frees the same orders in the same order. */
  lemma MatchIsAdditiveForHoldings(o: IncomingOrder, a: Quantity, b: Quantity, q: seq<Entry>, h: Holdings,
                                   orders: seq<Order>)
    requires a >= 0 && b >= 0 && MatchingLaws.Positive(q) && DistinctIds(q) && Sorted(o.side.Opposite(), q)
    requires |orders| == |q|
    ensures var first := Match(o, a, q, NO_EVENT);
            var second := Match(o, b, first.queue, NO_EVENT);
            var n := |first.event.reports|;
            && n + |second.event.reports| == |Match(o, a + b, q, NO_EVENT).event.reports| <= |orders|
            && ReleaseAll(ReleaseAll(h, first.event.reports, orders), second.event.reports, orders[n..])
               == ReleaseAll(h, Match(o, a + b, q, NO_EVENT).event.reports, orders)
  {
    hide Match;
    MatchingLaws.MatchIsAdditive(o, a, b, q);
    var first := Match(o, a, q, NO_EVENT);
    var n := MatchSweeps(o, a + b, q);
    ReleaseAllConcat(h, first.event.reports, Match(o, b, first.queue, NO_EVENT).event.reports, orders);
  }
}
