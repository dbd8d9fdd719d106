/**
 One side of the book: an array of FIFO levels indexed by price, with a bitset
 that marks the non-empty ones.
 */
module Ladder {
  import opened Types
  import opened OrderStore
  import opened Bitset
  import opened BookSpec

  /** The orders of each level. */
  ghost function RowsOf(levels: seq<PriceLevelList>): (r: seq<seq<Order>>)
    reads levels
    ensures |r| == |levels| && forall i :: 0 <= i < |r| ==> r[i] == levels[i].Contents
  {
    if levels == [] then [] else RowsOf(levels[..|levels| - 1]) + [levels[|levels| - 1].Contents]
  }

  class PriceLadder {
    const maxLevels: nat
    const levels: seq<PriceLevelList>
    const occupied: DynamicBitset
    // The side whose orders this ladder holds.
    ghost const side: Side
    // The values of the orders, level by level in arrival order.
    ghost var View: seq<seq<Entry>>
    // The orders on this ladder.
    ghost var Orders: set<Order>

    ghost function Rows(): (r: seq<seq<Order>>)
      reads levels
      ensures |r| == |levels| && forall i :: 0 <= i < |r| ==> r[i] == levels[i].Contents
    {
      RowsOf(levels)
    }

    /** Level `i` links exactly the orders of this side and price `i`, whose values `View` records. */
    ghost predicate LevelOk(i: int)
      requires |levels| == |View| == maxLevels && 0 <= i < maxLevels
      reads this, levels, Orders
    {
      && (forall o :: o in levels[i].Contents ==> o in Orders)
      && levels[i].Valid()
      && Records(View[i], levels[i].Contents)
      && (forall j :: 0 <= j < |View[i]| ==> View[i][j].price == i && View[i][j].side == side)
    }

    /** The order is in the level of its price. */
    ghost predicate Placed(o: Order)
      requires |levels| == maxLevels
      reads o`price, levels
    {
      0 <= o.price < maxLevels && o in levels[o.price].Contents
    }

    /** The levels are distinct, well linked, and hold exactly `Orders`. */
    ghost predicate Linked()
      reads this, levels, Orders
    {
      && |levels| == |View| == maxLevels
      && (forall i, j :: 0 <= i < j < maxLevels ==> levels[i] != levels[j])
      && (forall i {:trigger LevelOk(i)} :: 0 <= i < maxLevels ==> LevelOk(i))
      && (forall o {:trigger Placed(o)} :: o in Orders ==> Placed(o))
    }

    /** A bit is set if and only if its level is non-empty. */
    ghost predicate BitsAgree()
      reads this`View, occupied
    {
      forall i :: 0 <= i < |View| ==> (i in occupied.Members <==> View[i] != [])
    }

    ghost predicate Marked()
      reads this, occupied, occupied.data
    {
      && |View| == maxLevels == occupied.numBits
      && occupied.Valid()
      && BitsAgree()
    }

    ghost predicate Valid()
      reads this, levels, occupied, occupied.data, Orders
    {
      Linked() && Marked()
    }

    /** A level none of whose parts changed is still well linked. */
    twostate lemma LevelKept(i: int)
      requires old(|levels| == |View| == maxLevels) && 0 <= i < maxLevels && old(LevelOk(i))
      requires |View| == maxLevels && View[i] == old(View[i]) && unchanged(levels[i])
      requires forall o :: o in levels[i].Contents ==> o in Orders && unchanged(o)
      ensures LevelOk(i)
    {
      assert forall j :: 0 <= j < |levels[i].Contents| ==> levels[i].Contents[j] in levels[i].Contents;
    }

    /** A ladder none of whose parts changed is still valid; pool indices do not matter to it. */
    twostate lemma Untouched()
      requires old(Valid())
      requires unchanged(this) && unchanged(occupied) && unchanged(occupied.data)
      requires forall l :: l in levels ==> unchanged(l)
      requires forall o :: o in Orders ==>
                 o.Value() == old(o.Value()) && o.prev == old(o.prev) && o.next == old(o.next)
      ensures Valid()
    {
      forall i | 0 <= i < maxLevels
        ensures LevelOk(i)
      {
        assert old(LevelOk(i));
        assert levels[i] in levels;
        assert forall j :: 0 <= j < |levels[i].Contents| ==> levels[i].Contents[j] in Orders;
      }
      forall o | o in Orders
        ensures Placed(o)
      {
        assert old(Placed(o));
        assert o.price == o.Value().price;
        assert levels[o.price] in levels;
      }
    }

    /** Only level `idx` and links of its orders changed, and it is well linked: so is the ladder. */
    twostate lemma Relinked(idx: int)
      requires old(Linked()) && |View| == maxLevels && 0 <= idx < maxLevels
      requires LevelOk(idx)
      requires forall i :: 0 <= i < maxLevels && i != idx ==> View[i] == old(View[i]) && unchanged(levels[i])
      requires forall o :: o in old(Orders) ==> o.Value() == old(o.Value())
      requires forall o :: o in old(Orders) && o !in old(levels[idx].Contents) ==> o in Orders && unchanged(o)
      requires forall o :: o in Orders ==> o in old(Orders) || Placed(o)
      requires forall o :: o in Orders && o in old(levels[idx].Contents) ==> o in levels[idx].Contents
      ensures Linked()
    {
      forall i | 0 <= i < maxLevels && i != idx
        ensures LevelOk(i)
      {
        assert old(LevelOk(i)) && old(LevelOk(idx));
        LevelKept(i);
      }
      forall o | o in Orders
        ensures Placed(o)
      {
        assert o in old(Orders) ==> old(Placed(o));
        assert o in old(levels[idx].Contents) ==> old(LevelOk(idx));
      }
    }

    /** Only the orders of level `idx` changed. */
    twostate lemma RowReplaced(idx: int)
      requires |levels| == maxLevels && 0 <= idx < maxLevels
      requires forall i :: 0 <= i < maxLevels && i != idx ==> unchanged(levels[i])
      ensures Rows() == old(Rows())[idx := levels[idx].Contents]
    {
    }

    constructor (maxLevels: nat, ghost side: Side)
      ensures Valid()
      ensures this.maxLevels == maxLevels && this.side == side
      ensures Orders == {} && |View| == maxLevels && forall i :: 0 <= i < maxLevels ==> View[i] == []
      ensures fresh(levels) && fresh(occupied) && fresh(occupied.data)
    {
      var ls: seq<PriceLevelList> := [];
      for i := 0 to maxLevels
        invariant |ls| == i && fresh(ls)
        invariant forall j, k :: 0 <= j < k < i ==> ls[j] != ls[k]
        invariant forall j :: 0 <= j < i ==> ls[j].Valid() && ls[j].Contents == []
      {
        var l := new PriceLevelList();
        ls := ls + [l];
      }
      var bits := new DynamicBitset(maxLevels);
      this.maxLevels := maxLevels;
      levels := ls;
      occupied := bits;
      this.side := side;
      View := seq(maxLevels, i => []);
      Orders := {};
    }

    /** Base price 0 and tick 1: a price is its own index, or -1 outside the ladder. */
    function PriceToIndex(price: Price): int {
      if price < 0 || price >= maxLevels then -1 else price
    }

    function IndexToPrice(index: int): Price {
      index
    }

    lemma OneViewPerLevel()
      requires Valid()
      ensures |View| == |levels| == maxLevels
    {
    }

    /** The recorded value at place `j` of level `i` is an order of this ladder. */
    lemma RecordedIsHere(i: int, j: int)
      requires Linked() && 0 <= i < maxLevels && 0 <= j < |View[i]|
      ensures j < |levels[i].Contents| && levels[i].Contents[j] in Orders
      ensures levels[i].Contents[j].Value() == View[i][j]
      ensures View[i][j].price == i && View[i][j].side == side
    {
      assert LevelOk(i);
      assert levels[i].Contents[j] in levels[i].Contents;
    }

    /** An order of this ladder has a place in the level of its price. */
    lemma PlaceOf(o: Order) returns (j: nat)
      requires Linked() && o in Orders
      ensures 0 <= o.price < maxLevels && j < |View[o.price]| && j < |levels[o.price].Contents|
      ensures levels[o.price].Contents[j] == o && View[o.price][j] == o.Value() && o.side == side
    {
      assert Placed(o) && LevelOk(o.price);
      j :| 0 <= j < |levels[o.price].Contents| && levels[o.price].Contents[j] == o;
      assert View[o.price][j] == o.Value();
    }

    method FindBestBid() returns (r: int)
      requires Valid()
      ensures r == -1 <==> forall i :: 0 <= i < maxLevels ==> View[i] == []
      ensures r != -1 ==> 0 <= r < maxLevels && View[r] != [] && forall i :: r < i < maxLevels ==> View[i] == []
    {
      r := occupied.FindHighest();
    }

    method FindBestAsk() returns (r: int)
      requires Valid()
      ensures r == -1 <==> forall i :: 0 <= i < maxLevels ==> View[i] == []
      ensures r != -1 ==> 0 <= r < maxLevels && View[r] != [] && forall i :: 0 <= i < r ==> View[i] == []
    {
      r := occupied.FindLowest();
    }

    /** The price of the highest marked level, or 0 if none is marked. */
    method BestBidPrice() returns (price: Price)
      requires occupied.Valid()
      ensures occupied.Members == {} ==> price == 0
      ensures occupied.Members != {} ==> price in occupied.Members && forall m :: m in occupied.Members ==> m <= price
    {
      var idx := occupied.FindHighest();
      price := if idx >= 0 then IndexToPrice(idx) else 0;
    }

    /** The price of the lowest marked level, or 0 if none is marked. */
    method BestAskPrice() returns (price: Price)
      requires occupied.Valid()
      ensures occupied.Members == {} ==> price == 0
      ensures occupied.Members != {} ==> price in occupied.Members && forall m :: m in occupied.Members ==> price <= m
    {
      var idx := occupied.FindLowest();
      price := if idx >= 0 then IndexToPrice(idx) else 0;
    }

    lemma RecordsLength(i: int)
      requires Linked() && 0 <= i < maxLevels
      ensures |View[i]| == |levels[i].Contents|
    {
      assert LevelOk(i);
    }

    /** `level_at(idx).push_back(order)`. */
    method PushBack(idx: int, order: Order)
      requires Linked() && order !in Orders
      requires 0 <= idx < maxLevels && order.price == idx && order.side == side
      modifies this`View, this`Orders, levels[idx], order`prev, order`next, Orders`next
      ensures Linked()
      ensures Orders == old(Orders) + {order}
      ensures View == old(View)[idx := old(View)[idx] + [order.Value()]]
      ensures Rows() == old(Rows())[idx := old(Rows())[idx] + [order]]
    {
      hide Chained, PriceLevelList.Valid, Rows;
      assert LevelOk(idx);
      levels[idx].PushBack(order);
      RowReplaced(idx);
      View := View[idx := View[idx] + [order.Value()]];
      Orders := Orders + {order};
      Relinked(idx);
    }

    /** `level_at(idx).remove(order)`, where `k` is the place of the order in its level. */
    method Remove(idx: int, order: Order, ghost k: nat)
      requires Linked()
      requires 0 <= idx < maxLevels && k < |levels[idx].Contents| && levels[idx].Contents[k] == order
      modifies this`View, this`Orders, levels[idx], Orders`prev, Orders`next
      ensures Linked()
      ensures Orders == old(Orders) - {order}
      ensures k < |old(View)[idx]|
      ensures View == old(View)[idx := RemoveAt(old(View)[idx], k)]
      ensures Rows() == old(Rows())[idx := RemoveAt(old(Rows())[idx], k)]
    {
      hide Chained, PriceLevelList.Valid, Rows, Records, RemoveAt;
      assert LevelOk(idx);
      ghost var contents := levels[idx].Contents;
      RecordsLength(idx);
      RecordsRemoveAt(View[idx], contents, k);
      levels[idx].Remove(order, k);
      RowReplaced(idx);
      View := View[idx := RemoveAt(View[idx], k)];
      Orders := Orders - {order};
      Relinked(idx);
    }

    method MarkOccupied(idx: int)
      requires 0 <= idx < maxLevels == |View| == occupied.numBits && View[idx] != []
      requires occupied.Valid()
      requires forall i :: 0 <= i < maxLevels && i != idx ==> (i in occupied.Members <==> View[i] != [])
      modifies occupied`Members, occupied.data
      ensures Marked()
    {
      occupied.Set(idx);
    }

    /** Clears the bit of a level, but only if the level is empty. */
    method MarkEmpty(idx: int)
      requires Linked() && 0 <= idx < maxLevels == occupied.numBits
      requires occupied.Valid() && idx in occupied.Members
      requires forall i :: 0 <= i < maxLevels && i != idx ==> (i in occupied.Members <==> View[i] != [])
      modifies occupied`Members, occupied.data
      ensures Marked()
    {
      assert LevelOk(idx);
      if levels[idx].head == null {
        occupied.Clear(idx);
      }
    }

    /** Puts the order at the end of its level, and marks the level. */
    method Append(idx: int, order: Order)
      requires Valid() && order !in Orders
      requires 0 <= idx < maxLevels && order.price == idx && order.side == side
      modifies this`View, this`Orders, levels[idx], order`prev, order`next, Orders`next
      modifies occupied`Members, occupied.data
      ensures Valid()
      ensures Orders == old(Orders) + {order}
      ensures View == old(View)[idx := old(View)[idx] + [order.Value()]]
      ensures Rows() == old(Rows())[idx := old(Rows())[idx] + [order]]
    {
      PushBack(idx, order);
      MarkOccupied(idx);
    }

    /** Takes the order at place `k` out of its level, and unmarks the level if that empties it. */
    method Detach(idx: int, order: Order, ghost k: nat)
      requires Valid()
      requires 0 <= idx < maxLevels && k < |levels[idx].Contents| && levels[idx].Contents[k] == order
      modifies this`View, this`Orders, levels[idx], Orders`prev, Orders`next
      modifies occupied`Members, occupied.data
      ensures Valid()
      ensures Orders == old(Orders) - {order}
      ensures k < |old(View)[idx]|
      ensures View == old(View)[idx := RemoveAt(old(View)[idx], k)]
      ensures Rows() == old(Rows())[idx := RemoveAt(old(Rows())[idx], k)]
    {
      assert LevelOk(idx);
      Remove(idx, order, k);
      MarkEmpty(idx);
    }

    twostate lemma FrontLevelKept(resting: Order, new idx: int)
      requires old(|levels| == |View| == maxLevels) && 0 <= idx < maxLevels && old(LevelOk(idx))
      requires |View| == maxLevels && unchanged(levels[idx])
      requires levels[idx].Contents != [] && resting == levels[idx].Contents[0]
      requires forall o :: o in levels[idx].Contents && o != resting ==> unchanged(o)
      requires forall o :: o in levels[idx].Contents ==> o in Orders
      requires resting.prev == old(resting.prev) && resting.next == old(resting.next)
      requires resting.price == old(resting.price) && resting.side == old(resting.side)
      requires View[idx] == [resting.Value()] + old(View)[idx][1..]
      ensures LevelOk(idx)
    {
      var c := levels[idx].Contents;
      forall j | 0 <= j < |c|
        ensures c[j].prev == old(c[j].prev) && c[j].next == old(c[j].next)
        ensures View[idx][j] == c[j].Value()
      {
        if j > 0 {
          assert c[0] != c[j] && c[j] in c;
        }
      }
    }

    /** Only the recorded value of the front order of a level changed, not its side or price. */
    twostate lemma FrontRevalued(resting: Order, new idx: int)
      requires old(Linked()) && 0 <= idx < maxLevels
      requires old(levels[idx].Contents) != [] && resting == old(levels[idx].Contents[0])
      requires forall i :: 0 <= i < maxLevels ==> unchanged(levels[i])
      requires Orders == old(Orders)
      requires forall o :: o in Orders && o != resting ==> unchanged(o)
      requires resting.prev == old(resting.prev) && resting.next == old(resting.next)
      requires resting.price == old(resting.price) && resting.side == old(resting.side)
      requires old(View)[idx] != []
      requires View == old(View)[idx := [resting.Value()] + old(View)[idx][1..]]
      ensures Linked()
    {
      assert old(LevelOk(idx));
      forall i | 0 <= i < maxLevels
        ensures LevelOk(i)
      {
        assert old(LevelOk(i));
        if i != idx {
          LevelKept(i);
        } else {
          FrontLevelKept(resting, idx);
        }
      }
      forall o | o in Orders
        ensures Placed(o)
      {
        assert old(Placed(o));
      }
    }

    method ReduceFront(idx: int, resting: Order, fill: Quantity)
      requires Valid() && 0 <= idx < maxLevels
      requires levels[idx].Contents != [] && resting == levels[idx].Contents[0]
      modifies this`View, resting`remaining
      ensures Valid()
      ensures old(View)[idx] != []
      ensures resting.Value() == old(resting.Value()).(remaining := old(resting.remaining) - fill)
      ensures View == old(View)[idx := [resting.Value()] + old(View)[idx][1..]]
    {
      assert LevelOk(idx);
      resting.remaining := resting.remaining - fill;
      View := View[idx := [resting.Value()] + View[idx][1..]];
      FrontRevalued(resting, idx);
    }

    method SetFrontStatus(idx: int, resting: Order, status: OrderStatus)
      requires Valid() && 0 <= idx < maxLevels
      requires levels[idx].Contents != [] && resting == levels[idx].Contents[0]
      modifies this`View, resting`status
      ensures Valid()
      ensures old(View)[idx] != []
      ensures resting.Value() == old(resting.Value()).(status := status)
      ensures View == old(View)[idx := [resting.Value()] + old(View)[idx][1..]]
    {
      assert LevelOk(idx);
      resting.status := status;
      View := View[idx := [resting.Value()] + View[idx][1..]];
      FrontRevalued(resting, idx);
    }

    /** The walk over a level that sums what its orders have left. */
    method RestingQuantity(idx: int) returns (total: Quantity)
      requires Valid() && 0 <= idx < maxLevels
      ensures total == Total(View[idx])
    {
      assert LevelOk(idx);
      ghost var c := levels[idx].Contents;
      ghost var j := 0;
      var o := levels[idx].head;
      total := 0;
      while o != null
        invariant 0 <= j <= |c| && o == if j == |c| then null else c[j]
        invariant total + Total(View[idx][j..]) == Total(View[idx])
        decreases |c| - j
      {
        assert o == c[j] && View[idx][j] == c[j].Value();
        assert View[idx][j..][1..] == View[idx][j + 1..];
        total := total + o.remaining;
        o := o.next;
        j := j + 1;
      }
    }

    /** Compares every bit with its level. */
    method VerifyInvariants() returns (ok: bool)
      requires Linked() && occupied.Valid()
      ensures ok <==> BitsAgree()
    {
      for i := 0 to maxLevels
        invariant forall k :: 0 <= k < i ==> (k in occupied.Members <==> View[k] != [])
      {
        var isOccupied := occupied.Test(i);
        var isNonempty := levels[i].head != null;
        assert LevelOk(i);
        if isOccupied != isNonempty {
          return false;
        }
      }
      ok := true;
    }
  }
}
