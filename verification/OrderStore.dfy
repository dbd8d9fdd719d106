/**
 The order object with its intrusive links, the doubly-linked FIFO level built
 from those links, and the preallocated pool whose freelist is threaded through
 the orders themselves.
 */
module OrderStore {
  import opened Types

  const UINT32_MAX: nat := 0xFFFF_FFFF

  class Order {
    var id: OrderID
    var side: Side
    var otype: OrderType
    var price: Price
    var quantity: Quantity
    var remaining: Quantity
    var timestamp: Timestamp
    var status: OrderStatus

    // Links of the price level queue.
    var prev: Order?
    var next: Order?
    // Own slot while the order is live, next free slot while it is not.
    var poolIndex: nat

    constructor ()
      ensures prev == null && next == null && poolIndex == 0
    {
      id, side, otype, price, quantity, remaining, timestamp, status := 0, Buy, Limit, 0, 0, 0, 0, New;
      prev, next, poolIndex := null, null, 0;
    }

    /** Fills in a freshly allocated order. */
    method Assign(o: IncomingOrder, left: Quantity, status: OrderStatus)
      modifies this`id, this`side, this`otype, this`price, this`quantity, this`remaining,
               this`timestamp, this`status
      ensures Value() == Entry(o.id, o.side, o.otype, o.price, o.quantity, left, o.timestamp, status)
    {
      id := o.id;
      side := o.side;
      otype := o.otype;
      price := o.price;
      quantity := o.quantity;
      remaining := left;
      timestamp := o.timestamp;
      this.status := status;
    }

    ghost function Value(): Entry
      reads this`id, this`side, this`otype, this`price, this`quantity, this`remaining,
            this`timestamp, this`status
    {
      Entry(id, side, otype, price, quantity, remaining, timestamp, status)
    }
  }

  /** `v` records the values of the orders `c`, place by place. */
  ghost predicate Records(v: seq<Entry>, c: seq<Order>)
    reads c`id, c`side, c`otype, c`price, c`quantity, c`remaining, c`timestamp, c`status
  {
    |v| == |c| && forall j :: 0 <= j < |c| ==> v[j] == c[j].Value()
  }

  lemma RecordsRemoveAt(v: seq<Entry>, c: seq<Order>, k: nat)
    requires Records(v, c) && k < |c|
    ensures Records(RemoveAt(v, k), RemoveAt(c, k))
  {
  }

  /** The links run through exactly the orders of `c`, in both directions. */
  ghost predicate Chained(c: seq<Order>)
    reads c`prev, c`next
  {
    && (forall i {:trigger c[i].prev} :: 0 <= i < |c| ==> c[i].prev == if i == 0 then null else c[i - 1])
    && (forall i {:trigger c[i].next} :: 0 <= i < |c| ==> c[i].next == if i == |c| - 1 then null else c[i + 1])
    && (forall i, j :: 0 <= i < j < |c| ==> c[i] != c[j])
  }

  /** Linking the neighbours of one order to each other leaves the chain without it. */
  twostate lemma Relinked(c: seq<Order>, new k: nat)
    requires k < |c|
    requires old(Chained(c))
    requires forall i {:trigger c[i].prev} :: 0 <= i < |c| && i != k ==>
               c[i].prev == if i == k + 1 then old(c[k].prev) else old(c[i].prev)
    requires forall i {:trigger c[i].next} :: 0 <= i < |c| && i != k ==>
               c[i].next == if i == k - 1 then old(c[k].next) else old(c[i].next)
    ensures Chained(RemoveAt(c, k))
  {
    var r := RemoveAt(c, k);
    forall i | 0 <= i < |r|
      ensures r[i].prev == if i == 0 then null else r[i - 1]
    {
      assert r[i] == c[if i < k then i else i + 1];
    }
    forall i | 0 <= i < |r|
      ensures r[i].next == if i == |r| - 1 then null else r[i + 1]
    {
      assert r[i] == c[if i < k then i else i + 1];
    }
  }

  class PriceLevelList {
    var head: Order?
    var tail: Order?
    var size: nat
    // The orders of the level in arrival order.
    ghost var Contents: seq<Order>

    /** Head, tail and size agree with the chain of `Contents`. */
    ghost predicate Valid()
      reads this, Contents`prev, Contents`next
    {
      && size == |Contents|
      && head == (if Contents == [] then null else Contents[0])
      && tail == (if Contents == [] then null else Contents[|Contents| - 1])
      && Chained(Contents)
    }

    constructor ()
      ensures Valid() && Contents == []
    {
      head, tail, size := null, null, 0;
      Contents := [];
    }

    method PushBack(order: Order)
      requires Valid() && order !in Contents
      modifies this, order`prev, order`next, Contents`next
      ensures Valid()
      ensures Contents == old(Contents) + [order]
    {
      order.prev := tail;
      order.next := null;
      if tail != null {
        tail.next := order;
      } else {
        head := order;
      }
      tail := order;
      size := size + 1;
      Contents := Contents + [order];
    }

    /** Unlinks the order in constant time; `k` is its place in the level. */
    method Remove(order: Order, ghost k: nat)
      requires Valid() && k < |Contents| && Contents[k] == order
      modifies this, Contents`prev, Contents`next
      ensures Valid()
      ensures Contents == RemoveAt(old(Contents), k)
      ensures forall o :: o in Contents <==> o in old(Contents) && o != order
      ensures order.prev == null && order.next == null
    {
      assert order.prev == if k == 0 then null else Contents[k - 1];
      assert order.next == if k == |Contents| - 1 then null else Contents[k + 1];
      if order.prev != null {
        order.prev.next := order.next;
      } else {
        head := order.next;
      }
      if order.next != null {
        order.next.prev := order.prev;
      } else {
        tail := order.prev;
      }
      order.prev := null;
      order.next := null;
      size := size - 1;
      ghost var c := Contents;
      Relinked(c, k);
      RemoveAtMembers(c, k);
      Contents := RemoveAt(c, k);
    }
  }

  lemma {:induction false} DistinctCount<T>(s: seq<T>)
    requires forall i, j :: 0 <= i < j < |s| ==> s[i] != s[j]
    ensures |set x | x in s| == |s|
  {
    if s == [] {
      assert (set x | x in s) == {};
    } else {
      DistinctCount(s[1..]);
      assert (set x | x in s) == {s[0]} + (set x | x in s[1..]);
    }
  }

  lemma FreeIsRest<T>(slots: seq<T>, free: seq<nat>, freed: seq<T>, live: set<T>)
    requires forall n :: 0 <= n < |free| ==> free[n] < |slots|
    requires |freed| == |free| && forall n :: 0 <= n < |free| ==> freed[n] == slots[free[n]]
    requires forall i :: 0 <= i < |slots| ==> (slots[i] in live <==> i !in free)
    requires forall x :: x in live ==> x in slots
    ensures (set x | x in slots) == live + (set x | x in freed)
    ensures live !! (set x | x in freed)
  {
    forall x | x in slots && x !in live
      ensures x in freed
    {
      var i :| 0 <= i < |slots| && slots[i] == x;
      var n :| 0 <= n < |free| && free[n] == i;
      assert freed[n] == x;
    }
  }

  lemma PartitionCount<T>(slots: seq<T>, free: seq<nat>, live: set<T>)
    requires forall i, j :: 0 <= i < j < |slots| ==> slots[i] != slots[j]
    requires forall n :: 0 <= n < |free| ==> free[n] < |slots|
    requires forall m, n :: 0 <= m < n < |free| ==> free[m] != free[n]
    requires forall i :: 0 <= i < |slots| ==> (slots[i] in live <==> i !in free)
    requires forall x :: x in live ==> x in slots
    ensures |free| + |live| == |slots|
  {
    var freed := seq(|free|, n requires 0 <= n < |free| => slots[free[n]]);
    FreeIsRest(slots, free, freed, live);
    DistinctCount(freed);
    DistinctCount(slots);
  }

  /** New orders, each with the index of the next one as a 32-bit word and the last one with the end mark. */
  method NewSlots(capacity: nat) returns (s: seq<Order>)
    requires 1 <= capacity
    ensures |s| == capacity && fresh(s) && forall i, j :: 0 <= i < j < capacity ==> s[i] != s[j]
    ensures forall i :: 0 <= i < capacity && i < UINT32_MAX ==>
              s[i].poolIndex == if i + 1 < capacity then i + 1 else UINT32_MAX
  {
    s := [];
    for i := 0 to capacity
      invariant |s| == i && fresh(s)
      invariant forall j, k :: 0 <= j < k < i ==> s[j] != s[k]
      invariant forall j :: 0 <= j < i && j < UINT32_MAX ==> s[j].poolIndex == j + 1
    {
      var o := new Order();
      o.poolIndex := (i + 1) % (UINT32_MAX + 1);
      s := s + [o];
    }
    s[capacity - 1].poolIndex := UINT32_MAX;
  }

  ghost function UpTo(n: nat): (r: seq<nat>)
    ensures |r| == n
    ensures forall i :: 0 <= i < n ==> r[i] == i && i in r
  {
    if n == 0 then [] else UpTo(n - 1) + [n - 1]
  }

  class OrderPool {
    const capacity: nat
    const slots: seq<Order>
    var freeHead: nat
    // The chain of free slots, first to be allocated first.
    ghost var Free: seq<nat>
    // The orders that are allocated.
    ghost var Live: set<Order>

    /** The largest index marks the end of the freelist, so a slot there or beyond is never reached. */
    function Usable(): nat {
      if capacity <= UINT32_MAX then capacity else UINT32_MAX
    }

    /** The freelist is a duplicate-free chain, and its slots are exactly the usable ones not live. */
    ghost predicate Valid()
      reads this, slots`poolIndex
    {
      && 1 <= capacity == |slots|
      && (forall i, j :: 0 <= i < j < capacity ==> slots[i] != slots[j])
      && freeHead == (if Free == [] then UINT32_MAX else Free[0])
      && (forall n :: 0 <= n < |Free| ==> Free[n] < Usable())
      && (forall n {:trigger slots[Free[n]].poolIndex} :: 0 <= n < |Free| ==>
            slots[Free[n]].poolIndex == if n == |Free| - 1 then UINT32_MAX else Free[n + 1])
      && (forall m, n :: 0 <= m < n < |Free| ==> Free[m] != Free[n])
      && (forall i :: 0 <= i < Usable() ==> (slots[i] in Live <==> i !in Free))
      && (forall o :: o in Live ==> o in slots && o.poolIndex < Usable() && slots[o.poolIndex] == o)
    }

    constructor (capacity: nat)
      requires 1 <= capacity
      ensures Valid() && this.capacity == capacity
      ensures fresh(slots)
      ensures Live == {} && |Free| == Usable() && forall i :: 0 <= i < |Free| ==> Free[i] == i
    {
      var s := NewSlots(capacity);
      this.capacity := capacity;
      slots := s;
      freeHead := 0;
      Free := UpTo(if capacity <= UINT32_MAX then capacity else UINT32_MAX);
      Live := {};
    }

    /** Every slot is either free or live: the pool is exhausted exactly when all of its orders are live. */
    lemma SlotsArePartitioned()
      requires Valid()
      ensures |Free| + |Live| == Usable()
    {
      PartitionCount(slots[..Usable()], Free, Live);
    }

    /** The slot that the next allocation hands out, if any. */
    function NextSlot(): (r: set<Order>)
      requires capacity == |slots|
      reads this`freeHead
    {
      if freeHead < Usable() then {slots[freeHead]} else {}
    }

    method Allocate() returns (order: Order?)
      requires Valid()
      modifies this`freeHead, this`Free, this`Live, NextSlot()
      ensures Valid()
      ensures order == null <==> old(Free) == []
      ensures order == null ==> Free == old(Free) && Live == old(Live)
      ensures order == null ==> old(NextSlot()) == {}
      ensures order != null ==>
                && old(NextSlot()) == {order} && order !in old(Live)
                && order == slots[old(Free)[0]] && order.poolIndex == old(Free)[0]
                && Free == old(Free)[1..] && Live == old(Live) + {order}
                && order.prev == null && order.next == null
    {
      if freeHead == UINT32_MAX {
        return null;
      }
      var idx := freeHead;
      freeHead := slots[idx].poolIndex;
      order := slots[idx];
      order.poolIndex := idx;
      order.prev := null;
      order.next := null;
      Free := Free[1..];
      Live := Live + {order};
    }

    method Deallocate(order: Order)
      requires Valid() && order in Live
      modifies this`freeHead, this`Free, this`Live, order`poolIndex
      ensures Valid()
      ensures Free == [old(order.poolIndex)] + old(Free) && Live == old(Live) - {order}
    {
      var idx := order.poolIndex;
      order.poolIndex := freeHead;
      freeHead := idx;
      Free := [idx] + Free;
      Live := Live - {order};
    }
  }

  // ---------- The id map and the freelist as values ----------

  /** The orders in the given slots. */
  function OrdersAt(slots: seq<Order>, free: seq<nat>): (r: seq<Order?>)
    ensures |r| == |free|
  {
    seq(|free|, n requires 0 <= n < |free| => if free[n] < |slots| then slots[free[n]] else null)
  }

  lemma OrdersAtPush(slots: seq<Order>, slot: nat, free: seq<nat>)
    requires slot < |slots|
    ensures OrdersAt(slots, [slot] + free) == [slots[slot]] + OrdersAt(slots, free)
  {
  }

  lemma OrdersAtPop(slots: seq<Order>, free: seq<nat>)
    requires free != [] && free[0] < |slots|
    ensures OrdersAt(slots, free)[0] == slots[free[0]] && OrdersAt(slots, free)[1..] == OrdersAt(slots, free[1..])
  {
  }

  /** The id map and the freelist, next order to be allocated first. */
  datatype Holdings = Holdings(mapped: map<OrderID, Order?>, free: seq<Order?>)

  /** An id leaves the map, whichever order it is mapped to, and an order becomes the next one to be allocated. */
  function Release(h: Holdings, id: OrderID, o: Order?): Holdings {
    Holdings(h.mapped - {id}, [o] + h.free)
  }

  /** The next free order is allocated and mapped. */
  function Take(h: Holdings, id: OrderID): Holdings {
    if h.free == [] then h else Holdings(h.mapped[id := h.free[0]], h.free[1..])
  }

  /** Releases the first orders, under the ids that the reports name, in turn. */
  function ReleaseAll(h: Holdings, reports: seq<Report>, orders: seq<Order>): Holdings
    requires |reports| <= |orders|
  {
    if reports == [] then h
    else
      var n := |reports| - 1;
      Release(ReleaseAll(h, reports[..n], orders), reports[n].orderId, orders[n])
  }

  lemma ReleaseAllSnoc(h: Holdings, reports: seq<Report>, r: Report, orders: seq<Order>)
    requires |reports| < |orders|
    ensures ReleaseAll(h, reports + [r], orders)
            == Release(ReleaseAll(h, reports, orders), r.orderId, orders[|reports|])
  {
    assert (reports + [r])[..|reports|] == reports;
  }

  lemma {:induction false} ReleaseAllConcat(h: Holdings, a: seq<Report>, b: seq<Report>, orders: seq<Order>)
    requires |a| + |b| <= |orders|
    ensures ReleaseAll(h, a + b, orders) == ReleaseAll(ReleaseAll(h, a, orders), b, orders[|a|..])
  {
    if b == [] {
      assert a + b == a;
    } else {
      var b', r := b[..|b| - 1], b[|b| - 1];
      assert a + b == (a + b') + [r];
      ReleaseAllSnoc(h, a + b', r, orders);
      ReleaseAllConcat(h, a, b', orders);
    }
  }

  /** Allocating for an id and releasing it gives the order back; only what the id was mapped to before is forgotten. */
  lemma TakeReleaseRoundTrip(h: Holdings, id: OrderID)
    requires h.free != []
    ensures Release(Take(h, id), id, h.free[0]) == Holdings(h.mapped - {id}, h.free)
    ensures id !in h.mapped ==> Release(Take(h, id), id, h.free[0]) == h
  {
    assert [h.free[0]] + h.free[1..] == h.free;
    assert h.mapped[id := h.free[0]] - {id} == h.mapped - {id};
    assert id !in h.mapped ==> h.mapped - {id} == h.mapped;
  }

  /** A map of orders by their own ids has at most as many keys as there are orders, and as many if it has all. */
  lemma {:induction false} MappedCount(m: map<OrderID, Order>, orders: set<Order>)
    requires forall id :: id in m ==> m[id] in orders && m[id].id == id
    ensures |m| <= |orders|
    ensures |m| == |orders| <==> forall o :: o in orders ==> o.id in m && m[o.id] == o
    decreases |m|
  {
    if m.Keys == {} {
      if orders != {} {
        var o :| o in orders;
        assert o.id !in m;
      }
    } else {
      var id :| id in m;
      var m', orders' := m - {id}, orders - {m[id]};
      MappedCount(m', orders');
      assert m'.Keys == m.Keys - {id};
      assert (forall o :: o in orders ==> o.id in m && m[o.id] == o)
          <==> (forall o :: o in orders' ==> o.id in m' && m'[o.id] == o) by {
        if forall o :: o in orders' ==> o.id in m' && m'[o.id] == o {
          assert forall o :: o in orders ==> o == m[id] || o in orders';
        }
      }
    }
  }
}
