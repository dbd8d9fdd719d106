/**
 Flattening an array of price levels into the priority queue of one side of a
 book: the highest level first for bids, the lowest first for asks.
 */
module Levels {
  import opened Types
  import opened BookSpec
  import BookLaws

  function Ascending<T>(v: seq<seq<T>>): seq<T> {
    if v == [] then [] else v[0] + Ascending(v[1..])
  }

  function Descending<T>(v: seq<seq<T>>): seq<T> {
    if v == [] then [] else Descending(v[1..]) + v[0]
  }

  function QueueOf<T>(side: Side, v: seq<seq<T>>): seq<T> {
    if side.Buy? then Descending(v) else Ascending(v)
  }

  /** The part of the queue that is better than level `k`. */
  function Ahead<T>(side: Side, v: seq<seq<T>>, k: nat): seq<T>
    requires k < |v|
  {
    if side.Buy? then Descending(v[k + 1..]) else Ascending(v[..k])
  }

  /** The part of the queue that is worse than level `k`. */
  function Behind<T>(side: Side, v: seq<seq<T>>, k: nat): seq<T>
    requires k < |v|
  {
    if side.Buy? then Descending(v[..k]) else Ascending(v[k + 1..])
  }

  lemma {:induction false} AscendingSplit<T>(v: seq<seq<T>>, k: nat, s: seq<T>)
    requires k < |v|
    ensures Ascending(v[k := s]) == Ascending(v[..k]) + s + Ascending(v[k + 1..])
  {
    var u := v[k := s];
    if k == 0 {
      assert u[1..] == v[1..];
    } else {
      AscendingSplit(v[1..], k - 1, s);
      assert u[1..] == v[1..][k - 1 := s];
      assert v[..k][1..] == v[1..][..k - 1];
      assert v[1..][k..] == v[k + 1..];
      assert Ascending(u) == v[0] + (Ascending(v[1..][..k - 1]) + s + Ascending(v[k + 1..]));
    }
  }

  lemma {:induction false} DescendingSplit<T>(v: seq<seq<T>>, k: nat, s: seq<T>)
    requires k < |v|
    ensures Descending(v[k := s]) == Descending(v[k + 1..]) + s + Descending(v[..k])
  {
    var u := v[k := s];
    if k == 0 {
      assert u[1..] == v[1..];
    } else {
      DescendingSplit(v[1..], k - 1, s);
      assert u[1..] == v[1..][k - 1 := s];
      assert v[..k][1..] == v[1..][..k - 1];
      assert v[1..][k..] == v[k + 1..];
    }
  }

  /** Replacing one level replaces the same stretch of the queue. */
  lemma QueueSplit<T>(side: Side, v: seq<seq<T>>, k: nat, s: seq<T>)
    requires k < |v|
    ensures QueueOf(side, v[k := s]) == Ahead(side, v, k) + s + Behind(side, v, k)
    ensures QueueOf(side, v) == Ahead(side, v, k) + v[k] + Behind(side, v, k)
  {
    assert v[k := v[k]] == v;
    if side.Buy? {
      DescendingSplit(v, k, s);
      DescendingSplit(v, k, v[k]);
    } else {
      AscendingSplit(v, k, s);
      AscendingSplit(v, k, v[k]);
    }
  }

  lemma {:induction false} EmptyLevels<T>(v: seq<seq<T>>)
    requires forall i :: 0 <= i < |v| ==> v[i] == []
    ensures Ascending(v) == Descending(v) == []
  {
    if v != [] {
      EmptyLevels(v[1..]);
    }
  }

  lemma {:induction false} AscendingMember(v: seq<seq<Entry>>, n: nat) returns (i: nat, j: nat)
    requires n < |Ascending(v)|
    ensures i < |v| && j < |v[i]| && v[i][j] == Ascending(v)[n]
  {
    if n < |v[0]| {
      i, j := 0, n;
    } else {
      i, j := AscendingMember(v[1..], n - |v[0]|);
      i := i + 1;
    }
  }

  lemma {:induction false} DescendingMember(v: seq<seq<Entry>>, n: nat) returns (i: nat, j: nat)
    requires n < |Descending(v)|
    ensures i < |v| && j < |v[i]| && v[i][j] == Descending(v)[n]
  {
    if n >= |Descending(v[1..])| {
      i, j := 0, n - |Descending(v[1..])|;
    } else {
      i, j := DescendingMember(v[1..], n);
      i := i + 1;
    }
  }

  /** Every order sits at the level of its own price and on its own side. */
  ghost predicate OnLevel(side: Side, v: seq<seq<Entry>>) {
    forall i, j :: 0 <= i < |v| && 0 <= j < |v[i]| ==> v[i][j].price == i && v[i][j].side == side
  }

  lemma QueueMember(side: Side, v: seq<seq<Entry>>, n: nat) returns (i: nat, j: nat)
    requires n < |QueueOf(side, v)|
    ensures i < |v| && j < |v[i]| && v[i][j] == QueueOf(side, v)[n]
  {
    if side.Buy? {
      i, j := DescendingMember(v, n);
    } else {
      i, j := AscendingMember(v, n);
    }
  }

  lemma AheadIsBetter(side: Side, v: seq<seq<Entry>>, k: nat, n: nat)
    requires OnLevel(side, v) && k < |v| && n < |Ahead(side, v, k)|
    ensures Better(side, Ahead(side, v, k)[n].price, k)
  {
    if side.Buy? {
      var i, j := DescendingMember(v[k + 1..], n);
      assert v[k + 1..][i] == v[k + 1 + i];
    } else {
      var i, j := AscendingMember(v[..k], n);
    }
  }

  lemma BehindIsWorse(side: Side, v: seq<seq<Entry>>, k: nat, n: nat)
    requires OnLevel(side, v) && k < |v| && n < |Behind(side, v, k)|
    ensures Better(side, k, Behind(side, v, k)[n].price)
  {
    if side.Buy? {
      var i, j := DescendingMember(v[..k], n);
    } else {
      var i, j := AscendingMember(v[k + 1..], n);
      assert v[k + 1..][i] == v[k + 1 + i];
    }
  }

  /** No level is better than `k`. */
  ghost predicate IsBest<T>(side: Side, v: seq<seq<T>>, k: nat) {
    k < |v| && v[k] != [] && forall i :: 0 <= i < |v| && Better(side, i, k) ==> v[i] == []
  }

  /** The best non-empty level is the front of the queue. */
  lemma BestLevelIsFront<T>(side: Side, v: seq<seq<T>>, k: nat)
    requires IsBest(side, v, k)
    ensures Ahead(side, v, k) == []
    ensures QueueOf(side, v) != [] && QueueOf(side, v)[0] == v[k][0]
  {
    EmptyLevels(if side.Buy? then v[k + 1..] else v[..k]);
    QueueSplit(side, v, k, v[k]);
  }

  lemma NoLevels<T>(side: Side, v: seq<seq<T>>)
    requires forall i :: 0 <= i < |v| ==> v[i] == []
    ensures QueueOf(side, v) == []
  {
    EmptyLevels(v);
  }

  /** Seen from the best level, the queue is that level and then the rest. */
  lemma QueueFromBest<T>(side: Side, v: seq<seq<T>>, k: nat, s: seq<T>)
    requires IsBest(side, v, k)
    ensures QueueOf(side, v) == v[k] + Behind(side, v, k)
    ensures QueueOf(side, v[k := s]) == s + Behind(side, v, k)
  {
    BestLevelIsFront(side, v, k);
    QueueSplit(side, v, k, s);
  }

  /** Replacing the front order of the best level replaces the front of the queue. */
  lemma FrontReplaced<T>(side: Side, v: seq<seq<T>>, k: nat, front: seq<T>)
    requires IsBest(side, v, k)
    ensures QueueOf(side, v) != [] && QueueOf(side, v)[0] == v[k][0]
    ensures QueueOf(side, v[k := front + v[k][1..]]) == front + QueueOf(side, v)[1..]
  {
    QueueFromBest(side, v, k, front + v[k][1..]);
    var rest := Behind(side, v, k);
    assert (v[k] + rest)[1..] == v[k][1..] + rest;
    assert (front + v[k][1..]) + rest == front + (v[k][1..] + rest);
  }

  /** A fill seen on the levels: the front order of the best level is reduced, or goes. */
  function FillLevel(v: seq<seq<Entry>>, k: nat, fill: Quantity): seq<seq<Entry>>
    requires k < |v| && v[k] != []
  {
    v[k := (if v[k][0].remaining == fill then [] else [Reduced(v[k][0], fill)]) + v[k][1..]]
  }

  lemma FillLevelFillsQueue(side: Side, v: seq<seq<Entry>>, k: nat, o: IncomingOrder, left: Quantity, ev: MatchEvent)
    requires IsBest(side, v, k)
    ensures QueueOf(side, v) != [] && QueueOf(side, v)[0] == v[k][0]
    ensures QueueOf(side, FillLevel(v, k, Min(left, v[k][0].remaining))) == Fill(o, left, QueueOf(side, v), ev).queue
  {
    FrontReplaced(side, v, k, []);
    FrontReplaced(side, v, k, [Reduced(v[k][0], Min(left, v[k][0].remaining))]);
  }

  /** Replacing the front order of a level twice. */
  lemma FrontTwice(v: seq<seq<Entry>>, k: nat, a: Entry, b: Entry)
    requires k < |v| && v[k] != []
    ensures var w := v[k := [a] + v[k][1..]];
            w[k := [b] + w[k][1..]] == v[k := [b] + v[k][1..]]
  {
    assert ([a] + v[k][1..])[1..] == v[k][1..];
  }

  /** Replacing the front order of a level and then taking it away. */
  lemma FrontGone(v: seq<seq<Entry>>, k: nat, a: Entry)
    requires k < |v| && v[k] != []
    ensures var w := v[k := [a] + v[k][1..]];
            w[k := RemoveAt(w[k], 0)] == v[k := [] + v[k][1..]]
  {
    assert RemoveAt([a] + v[k][1..], 0) == [] + v[k][1..];
  }

  /** Appending to a level inserts into the queue. */
  lemma AppendInserts(side: Side, v: seq<seq<Entry>>, k: nat, e: Entry)
    requires OnLevel(side, v) && k < |v| && e.price == k && e.side == side
    ensures QueueOf(side, v[k := v[k] + [e]]) == BookSpec.Insert(QueueOf(side, v), e)
  {
    QueueSplit(side, v, k, v[k] + [e]);
    var a, b := Ahead(side, v, k) + v[k], Behind(side, v, k);
    forall i | 0 <= i < |a|
      ensures !Better(side, e.price, a[i].price)
    {
      if i < |Ahead(side, v, k)| {
        AheadIsBetter(side, v, k, i);
      }
    }
    if b != [] {
      BehindIsWorse(side, v, k, 0);
    }
    BookLaws.InsertBetween(a, b, e);
    assert Ahead(side, v, k) + (v[k] + [e]) + b == a + [e] + b;
  }

  /** Taking an order out of a level takes it out of the queue; `n` is its place there. */
  lemma RemoveFromLevel(side: Side, v: seq<seq<Entry>>, k: nat, j: nat) returns (n: nat)
    requires k < |v| && j < |v[k]|
    ensures n == |Ahead(side, v, k)| + j && n < |QueueOf(side, v)| && QueueOf(side, v)[n] == v[k][j]
    ensures QueueOf(side, v[k := RemoveAt(v[k], j)]) == RemoveAt(QueueOf(side, v), n)
  {
    var a, b := Ahead(side, v, k), Behind(side, v, k);
    n := |a| + j;
    QueueSplit(side, v, k, RemoveAt(v[k], j));
    assert a + RemoveAt(v[k], j) + b == RemoveAt(a + v[k] + b, n);
  }

  /** The last order of an id at a price is the last one of that id on its level. */
  lemma FindLastOfLevel(side: Side, v: seq<seq<Entry>>, k: nat, id: OrderID)
    requires OnLevel(side, v) && k < |v| && FindLast(v[k], id, k) < |v[k]|
    ensures FindLast(QueueOf(side, v), id, k) == |Ahead(side, v, k)| + FindLast(v[k], id, k)
  {
    var q, a, j := QueueOf(side, v), |Ahead(side, v, k)|, FindLast(v[k], id, k);
    QueueSplit(side, v, k, v[k]);
    assert q[a + j] == v[k][j];
    forall i | a + j < i < |q|
      ensures !Matches(q[i], id, k)
    {
      if i < a + |v[k]| {
        assert q[i] == v[k][i - a];
      } else {
        BehindIsWorse(side, v, k, i - a - |v[k]|);
      }
    }
  }

  lemma {:induction false} TotalAtOfConcat(a: seq<Entry>, b: seq<Entry>, price: Price)
    ensures TotalAt(a + b, price) == TotalAt(a, price) + TotalAt(b, price)
  {
    if a == [] {
      assert a + b == b;
    } else {
      assert (a + b)[1..] == a[1..] + b;
      TotalAtOfConcat(a[1..], b, price);
    }
  }

  lemma {:induction false} TotalAtElsewhere(q: seq<Entry>, price: Price)
    requires forall i :: 0 <= i < |q| ==> q[i].price != price
    ensures TotalAt(q, price) == 0
  {
    if q != [] {
      TotalAtElsewhere(q[1..], price);
    }
  }

  lemma {:induction false} TotalAtHere(q: seq<Entry>, price: Price)
    requires forall i :: 0 <= i < |q| ==> q[i].price == price
    ensures TotalAt(q, price) == Total(q)
  {
    if q != [] {
      TotalAtHere(q[1..], price);
    }
  }

  /** What the queue holds at a price is what the level of that price holds. */
  lemma TotalAtIsLevel(side: Side, v: seq<seq<Entry>>, k: nat)
    requires OnLevel(side, v) && k < |v|
    ensures TotalAt(QueueOf(side, v), k) == Total(v[k])
  {
    var a, b := Ahead(side, v, k), Behind(side, v, k);
    QueueSplit(side, v, k, v[k]);
    TotalAtOfConcat(a + v[k], b, k);
    TotalAtOfConcat(a, v[k], k);
    forall i | 0 <= i < |a|
      ensures a[i].price != k
    {
      AheadIsBetter(side, v, k, i);
    }
    forall i | 0 <= i < |b|
      ensures b[i].price != k
    {
      BehindIsWorse(side, v, k, i);
    }
    TotalAtElsewhere(a, k);
    TotalAtHere(v[k], k);
    TotalAtElsewhere(b, k);
  }

  /** The queue holds nothing at a price without a level. */
  lemma TotalAtOutside(side: Side, v: seq<seq<Entry>>, price: Price)
    requires OnLevel(side, v) && !(0 <= price < |v|)
    ensures TotalAt(QueueOf(side, v), price) == 0
  {
    var q := QueueOf(side, v);
    forall n | 0 <= n < |q|
      ensures q[n].price != price
    {
      var i, j := QueueMember(side, v, n);
    }
    TotalAtElsewhere(q, price);
  }

  // ---------- The queue determines the levels ----------

  ghost function NonEmptyLevels(v: seq<seq<Entry>>): set<int> {
    set i | 0 <= i < |v| && v[i] != []
  }

  /** The orders of a queue at one price, in their order. */
  function AtPrice(q: seq<Entry>, price: Price): seq<Entry> {
    if q == [] then []
    else (if q[0].price == price then [q[0]] else []) + AtPrice(q[1..], price)
  }

  lemma {:induction false} AtPriceOfConcat(a: seq<Entry>, b: seq<Entry>, price: Price)
    ensures AtPrice(a + b, price) == AtPrice(a, price) + AtPrice(b, price)
  {
    if a == [] {
      assert a + b == b;
    } else {
      assert (a + b)[1..] == a[1..] + b;
      AtPriceOfConcat(a[1..], b, price);
    }
  }

  lemma {:induction false} AtPriceElsewhere(q: seq<Entry>, price: Price)
    requires forall i :: 0 <= i < |q| ==> q[i].price != price
    ensures AtPrice(q, price) == []
  {
    if q != [] {
      AtPriceElsewhere(q[1..], price);
    }
  }

  lemma {:induction false} AtPriceHere(q: seq<Entry>, price: Price)
    requires forall i :: 0 <= i < |q| ==> q[i].price == price
    ensures AtPrice(q, price) == q
  {
    if q != [] {
      AtPriceHere(q[1..], price);
    }
  }

  lemma AtPriceIsLevel(side: Side, v: seq<seq<Entry>>, k: nat)
    requires OnLevel(side, v) && k < |v|
    ensures AtPrice(QueueOf(side, v), k) == v[k]
  {
    var a, b := Ahead(side, v, k), Behind(side, v, k);
    QueueSplit(side, v, k, v[k]);
    AtPriceOfConcat(a + v[k], b, k);
    AtPriceOfConcat(a, v[k], k);
    forall i | 0 <= i < |a|
      ensures a[i].price != k
    {
      AheadIsBetter(side, v, k, i);
    }
    forall i | 0 <= i < |b|
      ensures b[i].price != k
    {
      BehindIsWorse(side, v, k, i);
    }
    AtPriceElsewhere(a, k);
    AtPriceHere(v[k], k);
    AtPriceElsewhere(b, k);
  }

  /** Two arrays of levels that stand for the same queue are the same. */
  lemma QueueDeterminesLevels(side: Side, v: seq<seq<Entry>>, w: seq<seq<Entry>>)
    requires OnLevel(side, v) && OnLevel(side, w) && |v| == |w|
    requires QueueOf(side, v) == QueueOf(side, w)
    ensures v == w
  {
    forall k | 0 <= k < |v|
      ensures v[k] == w[k]
    {
      AtPriceIsLevel(side, v, k);
      AtPriceIsLevel(side, w, k);
    }
  }
}
