/**
 What an id map points at, as values: an id is mapped to the last order with
 that id at one price of one side. Every operation on the orders keeps that.
 */
module IdMap {
  import opened Types
  import opened BookSpec

  /** The orders of both ladders, level by level, and the lost ones, each beside its value. */
  datatype Stock<T> = Stock(bids: seq<seq<Entry>>, bidOrders: seq<seq<T>>,
                            asks: seq<seq<Entry>>, askOrders: seq<seq<T>>,
                            lost: seq<Entry>, strays: seq<T>) {

    /** The values at a price of a side; a price without a level has the lost orders. */
    ghost function Values(side: Side, price: Price): seq<Entry> {
      var v := if side.Buy? then bids else asks;
      if 0 <= price < |v| then v[price] else lost
    }

    ghost function Orders(side: Side, price: Price): seq<T> {
      var v := if side.Buy? then bidOrders else askOrders;
      if 0 <= price < |v| then v[price] else strays
    }

    ghost predicate HasLevel(price: Price) {
      0 <= price < |bids|
    }

    ghost predicate Regular() {
      |bids| == |bidOrders| == |asks| == |askOrders|
    }

    ghost function WithLevel(side: Side, price: Price, q: seq<Entry>, os: seq<T>): Stock<T>
      requires Regular() && HasLevel(price)
    {
      if side.Buy? then this.(bids := bids[price := q], bidOrders := bidOrders[price := os])
      else this.(asks := asks[price := q], askOrders := askOrders[price := os])
    }
  }

  /** The last of the values with this id and price is that of `o`. */
  ghost predicate PointsIn<T>(q: seq<Entry>, os: seq<T>, id: OrderID, price: Price, o: T) {
    |q| == |os| && var k := FindLast(q, id, price); k < |q| && os[k] == o
  }

  ghost predicate Points<T>(s: Stock<T>, id: OrderID, p: Place, o: T) {
    p.Shelf? ==> PointsIn(s.Values(p.side, p.price), s.Orders(p.side, p.price), id, p.price, o)
  }

  /** Every id that is mapped to an order in stock names the last one with that id at its price. */
  ghost predicate AllPoint<T>(s: Stock<T>, ids: map<OrderID, Place>, m: map<OrderID, T>) {
    ids.Keys == m.Keys && forall id :: id in ids ==> Points(s, id, ids[id], m[id])
  }

  // ---------- One sequence of orders ----------

  lemma SnocPoints<T>(q: seq<Entry>, os: seq<T>, e: Entry, x: T)
    requires |q| == |os|
    ensures PointsIn(q + [e], os + [x], e.id, e.price, x)
    ensures forall id, price, o :: PointsIn(q, os, id, price, o) && id != e.id ==>
              PointsIn(q + [e], os + [x], id, price, o)
  {
    var r := q + [e];
    assert r[|q|] == e;
    forall id, price, o | PointsIn(q, os, id, price, o) && id != e.id
      ensures PointsIn(r, os + [x], id, price, o)
    {
      var k := FindLast(q, id, price);
      assert r[k] == q[k];
      forall i | k < i < |r|
        ensures !Matches(r[i], id, price)
      {
        assert i < |q| ==> r[i] == q[i];
      }
      LastIs(r, k, id, price);
    }
    LastIs(r, |q|, e.id, e.price);
  }

  lemma RemoveAtPoints<T>(q: seq<Entry>, os: seq<T>, k: nat)
    requires |q| == |os| && k < |q|
    ensures forall id, price, o :: PointsIn(q, os, id, price, o) && id != q[k].id ==>
              PointsIn(RemoveAt(q, k), RemoveAt(os, k), id, price, o)
  {
    forall id, price, o | PointsIn(q, os, id, price, o) && id != q[k].id
      ensures PointsIn(RemoveAt(q, k), RemoveAt(os, k), id, price, o)
    {
      var n := FindLast(q, id, price);
      LastIs(RemoveAt(q, k), if n < k then n else n - 1, id, price);
    }
  }

  /** Ids and prices are the same, place by place. */
  ghost predicate SameKeys(q: seq<Entry>, r: seq<Entry>) {
    |q| == |r| && forall i :: 0 <= i < |q| ==> q[i].id == r[i].id && q[i].price == r[i].price
  }

  lemma SameKeysPoint<T>(q: seq<Entry>, r: seq<Entry>, os: seq<T>)
    requires SameKeys(q, r)
    ensures forall id, price, o :: PointsIn(q, os, id, price, o) ==> PointsIn(r, os, id, price, o)
  {
    forall id, price, o | PointsIn(q, os, id, price, o)
      ensures PointsIn(r, os, id, price, o)
    {
      LastIs(r, FindLast(q, id, price), id, price);
    }
  }

  lemma LastIs(q: seq<Entry>, k: nat, id: OrderID, price: Price)
    requires k < |q| && Matches(q[k], id, price) && forall i :: k < i < |q| ==> !Matches(q[i], id, price)
    ensures FindLast(q, id, price) == k
  {
  }

  // ---------- The whole stock ----------

  /** An order leaves its level, and its id the map. */
  lemma TakenKeepsPoints<T>(s: Stock<T>, ids: map<OrderID, Place>, m: map<OrderID, T>, side: Side, price: Price, k: nat)
    requires s.Regular() && s.HasLevel(price) && AllPoint(s, ids, m)
    requires |s.Values(side, price)| == |s.Orders(side, price)| && k < |s.Values(side, price)|
    ensures var q, os := s.Values(side, price), s.Orders(side, price);
            AllPoint(s.WithLevel(side, price, RemoveAt(q, k), RemoveAt(os, k)), ids - {q[k].id}, m - {q[k].id})
  {
    var q, os := s.Values(side, price), s.Orders(side, price);
    RemoveAtPoints(q, os, k);
    hide PointsIn, RemoveAt;
  }

  /** An order comes last on its level, and its id is mapped to it. */
  lemma PutKeepsPoints<T>(s: Stock<T>, ids: map<OrderID, Place>, m: map<OrderID, T>, e: Entry, o: T)
    requires s.Regular() && s.HasLevel(e.price) && AllPoint(s, ids, m)
    requires |s.Values(e.side, e.price)| == |s.Orders(e.side, e.price)|
    ensures var q, os := s.Values(e.side, e.price), s.Orders(e.side, e.price);
            AllPoint(s.WithLevel(e.side, e.price, q + [e], os + [o]),
                     ids[e.id := Shelf(e.side, e.price)], m[e.id := o])
  {
    SnocPoints(s.Values(e.side, e.price), s.Orders(e.side, e.price), e, o);
    hide PointsIn;
  }

  /** What the orders of a level have left does not matter. */
  lemma RevaluedKeepsPoints<T>(s: Stock<T>, ids: map<OrderID, Place>, m: map<OrderID, T>, side: Side, price: Price,
                               q: seq<Entry>)
    requires s.Regular() && s.HasLevel(price) && AllPoint(s, ids, m) && SameKeys(s.Values(side, price), q)
    ensures AllPoint(s.WithLevel(side, price, q, s.Orders(side, price)), ids, m)
  {
    SameKeysPoint(s.Values(side, price), q, s.Orders(side, price));
    hide PointsIn, SameKeys;
  }

  /** An order without a level joins the lost ones, and its id is mapped to it. */
  lemma LostKeepsPoints<T>(s: Stock<T>, ids: map<OrderID, Place>, m: map<OrderID, T>, e: Entry, o: T)
    requires s.Regular() && !s.HasLevel(e.price) && AllPoint(s, ids, m) && |s.lost| == |s.strays|
    ensures AllPoint(s.(lost := s.lost + [e], strays := s.strays + [o]),
                     ids[e.id := Shelf(e.side, e.price)], m[e.id := o])
  {
    SnocPoints(s.lost, s.strays, e, o);
    hide PointsIn;
  }

  /** A lost order is given back; its id stays mapped to it. */
  lemma FreedKeepsPoints<T>(s: Stock<T>, ids: map<OrderID, Place>, m: map<OrderID, T>, k: nat)
    requires s.Regular() && AllPoint(s, ids, m) && |s.lost| == |s.strays| && k < |s.lost|
    requires s.lost[k].id in ids
    ensures AllPoint(s.(lost := RemoveAt(s.lost, k), strays := RemoveAt(s.strays, k)), ids[s.lost[k].id := Freed], m)
  {
    RemoveAtPoints(s.lost, s.strays, k);
    hide PointsIn, RemoveAt;
  }
}
