/**
 The naive book of the reference engine as values: price levels in priority
 order, each a list of order cells, where a cancelled order stays in its list
 as a tombstone. Its live part is a priority queue of `BookSpec`.
 */
module RefLevels {
  import opened Types
  import opened BookSpec
  import opened BookLaws
  import Levels

  /** A list cell whose status a cancel overwrites through a pointer. */
  class RefOrder {
    const id: OrderID
    const side: Side
    const otype: OrderType
    const price: Price
    const quantity: Quantity
    var remaining: Quantity
    const timestamp: Timestamp
    var status: OrderStatus

    constructor (o: IncomingOrder, left: Quantity)
      ensures Value() == EntryOf(o, left)
    {
      id, side, otype, price := o.id, o.side, o.otype, o.price;
      quantity, remaining, timestamp, status := o.quantity, left, o.timestamp, Resting;
    }

    ghost function Value(): Entry
      reads this
    {
      Entry(id, side, otype, price, quantity, remaining, timestamp, status)
    }
  }

  /** One entry of the ordered map from prices to lists. */
  datatype RefLevel = RefLevel(price: Price, orders: seq<RefOrder>)

  // What each cell holds.
  type Cells = map<RefOrder, Entry>

  const NOTHING := Entry(0, Buy, Limit, 0, 0, 0, 0, Cancelled)

  ghost function At(m: Cells, o: RefOrder): Entry {
    if o in m then m[o] else NOTHING
  }

  /** The live orders of a list. */
  ghost function Live(os: seq<RefOrder>, m: Cells): seq<Entry> {
    if os == [] then []
    else (if At(m, os[0]).IsLive() then [At(m, os[0])] else []) + Live(os[1..], m)
  }

  /** The live orders of all levels, in priority order. */
  ghost function LiveQueue(ls: seq<RefLevel>, m: Cells): seq<Entry> {
    if ls == [] then [] else Live(ls[0].orders, m) + LiveQueue(ls[1..], m)
  }

  // ---------- The invariant of one side ----------

  /** A list of distinct cells of one side and price, each live and sound or a tombstone. */
  ghost predicate ListOk(side: Side, price: Price, os: seq<RefOrder>, m: Cells) {
    && (forall j :: 0 <= j < |os| ==>
          && os[j] in m && m[os[j]].side == side && m[os[j]].price == price
          && (m[os[j]].status == Cancelled || m[os[j]].IsSound()))
    && (forall i, j :: 0 <= i < j < |os| ==> os[i] != os[j])
  }

  ghost predicate PricesSorted(side: Side, ls: seq<RefLevel>) {
    forall i, j :: 0 <= i < j < |ls| ==> Better(side, ls[i].price, ls[j].price)
  }

  ghost predicate LevelsOk(side: Side, ls: seq<RefLevel>, m: Cells) {
    && PricesSorted(side, ls)
    && (forall i :: 0 <= i < |ls| ==> ListOk(side, ls[i].price, ls[i].orders, m))
  }

  ghost predicate InLevels(ls: seq<RefLevel>, o: RefOrder) {
    exists i :: 0 <= i < |ls| && o in ls[i].orders
  }

  // ---------- Live parts ----------

  lemma {:induction false} LiveOfConcat(a: seq<RefOrder>, b: seq<RefOrder>, m: Cells)
    ensures Live(a + b, m) == Live(a, m) + Live(b, m)
  {
    if a == [] {
      assert a + b == b;
    } else {
      assert (a + b)[1..] == a[1..] + b;
      LiveOfConcat(a[1..], b, m);
    }
  }

  lemma {:induction false} LiveDependsOnCells(os: seq<RefOrder>, m: Cells, m': Cells)
    requires forall o :: o in os ==> At(m, o) == At(m', o)
    ensures Live(os, m) == Live(os, m')
  {
    if os != [] {
      LiveDependsOnCells(os[1..], m, m');
    }
  }

  lemma {:induction false} QueueDependsOnCells(ls: seq<RefLevel>, m: Cells, m': Cells)
    requires forall i, o :: 0 <= i < |ls| && o in ls[i].orders ==> At(m, o) == At(m', o)
    ensures LiveQueue(ls, m) == LiveQueue(ls, m')
  {
    if ls != [] {
      LiveDependsOnCells(ls[0].orders, m, m');
      forall i, o | 0 <= i < |ls[1..]| && o in ls[1..][i].orders
        ensures At(m, o) == At(m', o)
      {
        assert ls[1..][i] == ls[i + 1];
      }
      QueueDependsOnCells(ls[1..], m, m');
    }
  }

  lemma {:induction false} LiveMember(os: seq<RefOrder>, m: Cells, n: nat) returns (o: RefOrder)
    requires n < |Live(os, m)|
    ensures o in os && At(m, o) == Live(os, m)[n] && At(m, o).IsLive()
  {
    if At(m, os[0]).IsLive() {
      if n == 0 {
        o := os[0];
      } else {
        o := LiveMember(os[1..], m, n - 1);
      }
    } else {
      o := LiveMember(os[1..], m, n);
    }
  }

  /** Every order of the live queue is a live cell of some level. */
  lemma {:induction false} QueueMember(ls: seq<RefLevel>, m: Cells, n: nat) returns (i: nat, o: RefOrder)
    requires n < |LiveQueue(ls, m)|
    ensures i < |ls| && o in ls[i].orders && At(m, o) == LiveQueue(ls, m)[n] && At(m, o).IsLive()
  {
    var k := |Live(ls[0].orders, m)|;
    if n < k {
      i := 0;
      o := LiveMember(ls[0].orders, m, n);
    } else {
      i, o := QueueMember(ls[1..], m, n - k);
      i := i + 1;
    }
  }

  lemma LiveSplit(os: seq<RefOrder>, m: Cells, j: nat)
    requires j < |os|
    ensures Live(os, m)
            == Live(os[..j], m) + (if At(m, os[j]).IsLive() then [At(m, os[j])] else []) + Live(os[j + 1..], m)
  {
    var one, rest := [os[j]], os[j + 1..];
    assert os == os[..j] + (one + rest);
    LiveOfConcat(os[..j], one + rest, m);
    LiveOfConcat(one, rest, m);
    assert one[1..] == [];
  }

  /** Killing one live cell of a list takes its order out of the live part. */
  lemma LiveCell(os: seq<RefOrder>, m: Cells, j: nat, dead: Entry)
    requires j < |os| && At(m, os[j]).IsLive() && forall i, k :: 0 <= i < k < |os| ==> os[i] != os[k]
    requires !dead.IsLive()
    ensures var n := |Live(os[..j], m)|;
            && n < |Live(os, m)| && Live(os, m)[n] == At(m, os[j])
            && Live(os, m[os[j] := dead]) == RemoveAt(Live(os, m), n)
  {
    var m' := m[os[j] := dead];
    LiveSplit(os, m, j);
    LiveSplit(os, m', j);
    LiveDependsOnCells(os[..j], m, m');
    LiveDependsOnCells(os[j + 1..], m, m');
  }

  /** No live cell that comes after `o` in the list has its id. */
  ghost predicate LastOfId(os: seq<RefOrder>, m: Cells, o: RefOrder) {
    forall j, k :: 0 <= j < k < |os| && os[j] == o && At(m, os[k]).IsLive() ==> At(m, os[k]).id != At(m, o).id
  }

  /** Neither has any live order behind it. */
  lemma LaterDiffers(os: seq<RefOrder>, m: Cells, j: nat)
    requires j < |os| && LastOfId(os, m, os[j])
    ensures !HasId(Live(os[j + 1..], m), At(m, os[j]).id)
  {
    var later := os[j + 1..];
    forall k | 0 <= k < |Live(later, m)|
      ensures Live(later, m)[k].id != At(m, os[j]).id
    {
      var o := LiveMember(later, m, k);
      var i :| 0 <= i < |later| && later[i] == o;
      assert os[j + 1 + i] == o;
    }
  }

  // ---------- Levels and the queue ----------

  lemma CellPrice(side: Side, ls: seq<RefLevel>, m: Cells, i: nat, o: RefOrder)
    requires LevelsOk(side, ls, m) && i < |ls| && o in ls[i].orders
    ensures o in m && m[o].price == ls[i].price && m[o].side == side
    ensures m[o].status == Cancelled || m[o].IsSound()
  {
    var j :| 0 <= j < |ls[i].orders| && ls[i].orders[j] == o;
  }

  lemma LevelsTail(side: Side, ls: seq<RefLevel>, m: Cells)
    requires LevelsOk(side, ls, m) && ls != []
    ensures LevelsOk(side, ls[1..], m)
  {
    forall i | 0 <= i < |ls[1..]|
      ensures ls[1..][i] == ls[i + 1]
    {
    }
  }

  /** No live cell that was put behind `o` in its list has its id. */
  ghost predicate Newest(ls: seq<RefLevel>, m: Cells, o: RefOrder) {
    forall i :: 0 <= i < |ls| ==> LastOfId(ls[i].orders, m, o)
  }

  /** The last order of an id and a price in a queue is the one behind which neither occurs. */
  lemma FindsLast(q: seq<Entry>, n: nat, id: OrderID, price: Price)
    requires n < |q| && Matches(q[n], id, price) && forall k :: n < k < |q| ==> !Matches(q[k], id, price)
    ensures FindLast(q, id, price) == n
  {
  }

  lemma {:induction false} QueueOfConcat(a: seq<RefLevel>, b: seq<RefLevel>, m: Cells)
    ensures LiveQueue(a + b, m) == LiveQueue(a, m) + LiveQueue(b, m)
  {
    if a == [] {
      assert a + b == b;
    } else {
      assert (a + b)[1..] == a[1..] + b;
      QueueOfConcat(a[1..], b, m);
    }
  }

  lemma LevelSplit(ls: seq<RefLevel>, m: Cells, i: nat)
    requires i < |ls|
    ensures LiveQueue(ls, m) == LiveQueue(ls[..i], m) + Live(ls[i].orders, m) + LiveQueue(ls[i + 1..], m)
  {
    var one, rest := [ls[i]], ls[i + 1..];
    assert ls == ls[..i] + (one + rest);
    QueueOfConcat(ls[..i], one + rest, m);
    QueueOfConcat(one, rest, m);
    assert one[1..] == [];
  }

  lemma OtherLevelsKeep(side: Side, ls: seq<RefLevel>, m: Cells, i: nat, o: RefOrder, e: Entry)
    requires LevelsOk(side, ls, m) && i < |ls| && o in ls[i].orders
    ensures LiveQueue(ls[..i], m[o := e]) == LiveQueue(ls[..i], m)
    ensures LiveQueue(ls[i + 1..], m[o := e]) == LiveQueue(ls[i + 1..], m)
  {
    forall k, x | 0 <= k < |ls| && k != i && x in ls[k].orders
      ensures At(m, x) == At(m[o := e], x)
    {
      CellElsewhere(side, ls, m, i, k, o, x);
    }
    var behind := ls[i + 1..];
    assert forall k :: 0 <= k < |behind| ==> behind[k] == ls[i + 1 + k];
    QueueDependsOnCells(ls[..i], m, m[o := e]);
    QueueDependsOnCells(behind, m, m[o := e]);
  }

  ghost predicate NonePriced(q: seq<Entry>, price: Price) {
    forall k :: 0 <= k < |q| ==> q[k].price != price
  }

  lemma BehindIsWorse(side: Side, ls: seq<RefLevel>, m: Cells, i: nat)
    requires LevelsOk(side, ls, m) && i < |ls|
    ensures NonePriced(LiveQueue(ls[i + 1..], m), ls[i].price)
  {
    var behind := ls[i + 1..];
    forall k | 0 <= k < |LiveQueue(behind, m)|
      ensures LiveQueue(behind, m)[k].price != ls[i].price
    {
      var j, x := QueueMember(behind, m, k);
      assert behind[j] == ls[i + 1 + j];
      CellPrice(side, ls, m, i + 1 + j, x);
    }
  }

  /**
   Killing one live cell takes its order, and nothing else, out of the queue; that
   is the last order of its id and price if the cell is the newest of its id.
   */
  lemma KillCell(side: Side, ls: seq<RefLevel>, m: Cells, i: nat, o: RefOrder, dead: Entry) returns (n: nat)
    requires LevelsOk(side, ls, m) && i < |ls| && o in ls[i].orders && At(m, o).IsLive() && !dead.IsLive()
    ensures n < |LiveQueue(ls, m)| && LiveQueue(ls, m)[n] == At(m, o)
    ensures LiveQueue(ls, m[o := dead]) == RemoveAt(LiveQueue(ls, m), n)
    ensures Newest(ls, m, o) ==> FindLast(LiveQueue(ls, m), At(m, o).id, At(m, o).price) == n
  {
    var os := ls[i].orders;
    var j :| 0 <= j < |os| && os[j] == o;
    assert Newest(ls, m, o) ==> LastOfId(os, m, o);
    CellPrice(side, ls, m, i, o);
    ListIsDistinct(side, ls[i].price, os, m);
    LiveCell(os, m, j, dead);
    LevelSplit(ls, m, i);
    LevelSplit(ls, m[o := dead], i);
    OtherLevelsKeep(side, ls, m, i, o, dead);
    if Newest(ls, m, o) {
      LastInQueue(side, ls, m, i, j);
    }
    hide *;
    n := |LiveQueue(ls[..i], m)| + |Live(os[..j], m)|;
    RemoveInMiddle(LiveQueue(ls[..i], m), Live(os, m), LiveQueue(ls[i + 1..], m), |Live(os[..j], m)|);
  }

  lemma RemoveInMiddle(a: seq<Entry>, q: seq<Entry>, b: seq<Entry>, k: nat)
    requires k < |q|
    ensures RemoveAt(a + q + b, |a| + k) == a + RemoveAt(q, k) + b && (a + q + b)[|a| + k] == q[k]
  {
    hide *;
    RemoveInFront(a + q, b, |a| + k);
    RemoveBehind(a, q, k);
  }

  lemma RemoveInFront(a: seq<Entry>, b: seq<Entry>, k: nat)
    requires k < |a|
    ensures RemoveAt(a + b, k) == RemoveAt(a, k) + b && (a + b)[k] == a[k]
  {
    RemoveAtConcat(a, b, k);
  }

  lemma RemoveBehind(a: seq<Entry>, b: seq<Entry>, k: nat)
    requires k < |b|
    ensures RemoveAt(a + b, |a| + k) == a + RemoveAt(b, k) && (a + b)[|a| + k] == b[k]
  {
    RemoveAtConcat(a, b, |a| + k);
  }

  lemma LastInQueue(side: Side, ls: seq<RefLevel>, m: Cells, i: nat, j: nat)
    requires LevelsOk(side, ls, m) && i < |ls| && j < |ls[i].orders|
    requires var o := ls[i].orders[j]; At(m, o).IsLive() && LastOfId(ls[i].orders, m, o)
    ensures var o := ls[i].orders[j];
            FindLast(LiveQueue(ls, m), At(m, o).id, At(m, o).price)
            == |LiveQueue(ls[..i], m)| + |Live(ls[i].orders[..j], m)|
  {
    var os := ls[i].orders;
    var o := os[j];
    CellPrice(side, ls, m, i, o);
    LevelSplit(ls, m, i);
    LiveSplit(os, m, j);
    LaterDiffers(os, m, j);
    BehindIsWorse(side, ls, m, i);
    hide *;
    LastBetween(LiveQueue(ls[..i], m) + Live(os[..j], m), At(m, o), Live(os[j + 1..], m), LiveQueue(ls[i + 1..], m));
    Regroup(LiveQueue(ls[..i], m), Live(os[..j], m), [At(m, o)], Live(os[j + 1..], m), LiveQueue(ls[i + 1..], m));
  }

  lemma Regroup<T>(a: seq<T>, b: seq<T>, c: seq<T>, d: seq<T>, e: seq<T>)
    ensures a + (b + c + d) + e == (a + b) + c + (d + e)
  {
  }

  lemma LastBetween(before: seq<Entry>, e: Entry, here: seq<Entry>, behind: seq<Entry>)
    requires !HasId(here, e.id) && NonePriced(behind, e.price)
    ensures FindLast(before + [e] + (here + behind), e.id, e.price) == |before|
  {
    FindsLast(before + [e] + (here + behind), |before|, e.id, e.price);
  }

  lemma ListIsDistinct(side: Side, price: Price, os: seq<RefOrder>, m: Cells)
    requires ListOk(side, price, os, m)
    ensures forall i, j :: 0 <= i < j < |os| ==> os[i] != os[j]
  {
  }

  /** What the live orders of a list have left is summed order by order. */
  lemma TotalOfLive(os: seq<RefOrder>, m: Cells, j: nat)
    requires j < |os|
    ensures Total(Live(os[j..], m))
            == (if At(m, os[j]).IsLive() then At(m, os[j]).remaining else 0) + Total(Live(os[j + 1..], m))
  {
    var s := os[j..];
    var rest := Live(os[j + 1..], m);
    assert s[0] == os[j] && s[1..] == os[j + 1..];
    if At(m, os[j]).IsLive() {
      assert Live(s, m) == [At(m, os[j])] + rest;
      assert ([At(m, os[j])] + rest)[1..] == rest;
    } else {
      assert Live(s, m) == rest;
    }
  }

  lemma EmptyLive(os: seq<RefOrder>, m: Cells)
    requires os == []
    ensures Total(Live(os, m)) == 0
  {
  }

  lemma CellElsewhere(side: Side, ls: seq<RefLevel>, m: Cells, i: nat, k: nat, o: RefOrder, x: RefOrder)
    requires LevelsOk(side, ls, m) && i < |ls| && k < |ls| && i != k && o in ls[i].orders && x in ls[k].orders
    ensures x != o
  {
    CellPrice(side, ls, m, i, o);
    CellPrice(side, ls, m, k, x);
  }

  /** Place of the first level that is not better than the price: the level of the price, if there is one. */
  function LevelPlace(side: Side, ls: seq<RefLevel>, price: Price): (k: nat)
    ensures k <= |ls|
    ensures forall i :: 0 <= i < k ==> Better(side, ls[i].price, price)
    ensures k < |ls| ==> !Better(side, ls[k].price, price)
  {
    if ls == [] || !Better(side, ls[0].price, price) then 0 else 1 + LevelPlace(side, ls[1..], price)
  }

  /** `levels[price].push_back(o)`, making the level in its place if there is none. */
  function PushBack(side: Side, ls: seq<RefLevel>, price: Price, o: RefOrder): seq<RefLevel> {
    var k := LevelPlace(side, ls, price);
    if k < |ls| && ls[k].price == price then ls[k := RefLevel(price, ls[k].orders + [o])]
    else InsertAt(ls, k, RefLevel(price, [o]))
  }

  /** A queue of worse prices follows a level. */
  lemma QueueIsWorse(side: Side, ls: seq<RefLevel>, m: Cells, price: Price, n: nat)
    requires LevelsOk(side, ls, m) && n < |LiveQueue(ls, m)|
    requires forall i :: 0 <= i < |ls| ==> Better(side, price, ls[i].price)
    ensures Better(side, price, LiveQueue(ls, m)[n].price)
  {
    var i, o := QueueMember(ls, m, n);
    CellPrice(side, ls, m, i, o);
  }

  lemma LiveListPrice(side: Side, price: Price, os: seq<RefOrder>, m: Cells, n: nat)
    requires ListOk(side, price, os, m) && n < |Live(os, m)|
    ensures Live(os, m)[n].price == price
  {
    var o := LiveMember(os, m, n);
  }

  /** Inserting behind a part that is at least as good. */
  lemma {:induction false} InsertAfter(a: seq<Entry>, b: seq<Entry>, e: Entry)
    requires forall i :: 0 <= i < |a| ==> !Better(e.side, e.price, a[i].price)
    ensures BookSpec.Insert(a + b, e) == a + BookSpec.Insert(b, e)
  {
    if a == [] {
      assert a + b == b;
    } else {
      assert (a + b)[1..] == a[1..] + b;
      InsertAfter(a[1..], b, e);
    }
  }

  /** An order inserted into the queue goes behind the whole first level, if that is at least as good. */
  lemma InsertPastLevel(side: Side, ls: seq<RefLevel>, m: Cells, e: Entry)
    requires LevelsOk(side, ls, m) && ls != [] && e.side == side && !Better(side, e.price, ls[0].price)
    ensures BookSpec.Insert(LiveQueue(ls, m), e) == Live(ls[0].orders, m) + BookSpec.Insert(LiveQueue(ls[1..], m), e)
  {
    var a := Live(ls[0].orders, m);
    forall i | 0 <= i < |a|
      ensures !Better(side, e.price, a[i].price)
    {
      LiveListPrice(side, ls[0].price, ls[0].orders, m, i);
    }
    InsertAfter(a, LiveQueue(ls[1..], m), e);
  }

  /** An order better than all levels goes first. */
  lemma InsertFirst(side: Side, ls: seq<RefLevel>, m: Cells, e: Entry)
    requires LevelsOk(side, ls, m) && e.side == side
    requires forall i :: 0 <= i < |ls| ==> Better(side, e.price, ls[i].price)
    ensures BookSpec.Insert(LiveQueue(ls, m), e) == [e] + LiveQueue(ls, m)
  {
    if LiveQueue(ls, m) != [] {
      QueueIsWorse(side, ls, m, e.price, 0);
    }
  }

  lemma {:induction false} ExtendInserts(side: Side, ls: seq<RefLevel>, m: Cells, o: RefOrder, k: nat)
    requires LevelsOk(side, ls, m) && o in m && m[o].side == side && m[o].IsLive()
    requires k < |ls| && ls[k].price == m[o].price
    ensures LiveQueue(ls[k := RefLevel(m[o].price, ls[k].orders + [o])], m) == BookSpec.Insert(LiveQueue(ls, m), m[o])
  {
    var r := ls[k := RefLevel(m[o].price, ls[k].orders + [o])];
    LevelsTail(side, ls, m);
    InsertPastLevel(side, ls, m, m[o]);
    if k == 0 {
      LiveOfConcat(ls[0].orders, [o], m);
      assert Live([o], m) == [m[o]];
      InsertFirst(side, ls[1..], m, m[o]);
      assert r[1..] == ls[1..];
    } else {
      ExtendInserts(side, ls[1..], m, o, k - 1);
      assert r[1..] == ls[1..][k - 1 := RefLevel(m[o].price, ls[k].orders + [o])];
    }
  }

  lemma {:induction false} AddInserts(side: Side, ls: seq<RefLevel>, m: Cells, o: RefOrder, k: nat)
    requires LevelsOk(side, ls, m) && o in m && m[o].side == side && m[o].IsLive()
    requires k <= |ls|
    requires forall i :: 0 <= i < k ==> Better(side, ls[i].price, m[o].price)
    requires forall i :: k <= i < |ls| ==> Better(side, m[o].price, ls[i].price)
    ensures LiveQueue(InsertAt(ls, k, RefLevel(m[o].price, [o])), m) == BookSpec.Insert(LiveQueue(ls, m), m[o])
  {
    var level := RefLevel(m[o].price, [o]);
    if k == 0 {
      InsertAtFront(ls, level);
      assert Live([o], m) == [m[o]];
      assert ([level] + ls)[1..] == ls;
      InsertFirst(side, ls, m, m[o]);
    } else {
      InsertAtTail(ls, k, level);
      LevelsTail(side, ls, m);
      InsertPastLevel(side, ls, m, m[o]);
      AddInserts(side, ls[1..], m, o, k - 1);
      var r := InsertAt(ls[1..], k - 1, level);
      assert ([ls[0]] + r)[1..] == r;
    }
  }

  /** Pushing a live cell at the end of its level inserts its order into the queue. */
  lemma PushBackInserts(side: Side, ls: seq<RefLevel>, m: Cells, o: RefOrder)
    requires LevelsOk(side, ls, m) && o in m && m[o].side == side && m[o].IsLive()
    ensures LiveQueue(PushBack(side, ls, m[o].price, o), m) == BookSpec.Insert(LiveQueue(ls, m), m[o])
  {
    var k := LevelPlace(side, ls, m[o].price);
    if k < |ls| && ls[k].price == m[o].price {
      ExtendInserts(side, ls, m, o, k);
    } else {
      AddInserts(side, ls, m, o, k);
    }
  }

  /** Replacing one level by a level of the same price. */
  lemma ReplaceKeepsLevels(side: Side, ls: seq<RefLevel>, m: Cells, k: nat, orders: seq<RefOrder>)
    requires LevelsOk(side, ls, m) && k < |ls| && ListOk(side, ls[k].price, orders, m)
    ensures LevelsOk(side, ls[k := RefLevel(ls[k].price, orders)], m)
  {
  }

  /** `r` is `ls` with a new level at place `k`. */
  lemma AddKeepsLevels(side: Side, ls: seq<RefLevel>, m: Cells, r: seq<RefLevel>, k: nat)
    requires LevelsOk(side, ls, m) && k <= |ls| && |r| == |ls| + 1
    requires ListOk(side, r[k].price, r[k].orders, m)
    requires forall i {:trigger r[i]} :: 0 <= i < |r| && i != k ==> r[i] == ls[if i < k then i else i - 1]
    requires forall i :: 0 <= i < k ==> Better(side, ls[i].price, r[k].price)
    requires forall i :: k <= i < |ls| ==> Better(side, r[k].price, ls[i].price)
    ensures LevelsOk(side, r, m)
  {
  }

  lemma PlaceSplits(side: Side, ls: seq<RefLevel>, price: Price)
    requires PricesSorted(side, ls)
    ensures var k := LevelPlace(side, ls, price);
            !(k < |ls| && ls[k].price == price) ==> forall i :: k <= i < |ls| ==> Better(side, price, ls[i].price)
  {
  }

  /** Pushing a cell keeps the levels well formed. */
  lemma PushBackKeepsLevels(side: Side, ls: seq<RefLevel>, m: Cells, o: RefOrder)
    requires LevelsOk(side, ls, m) && o in m && m[o].side == side && m[o].IsSound() && !InLevels(ls, o)
    ensures LevelsOk(side, PushBack(side, ls, m[o].price, o), m)
  {
    hide PricesSorted;
    var k := LevelPlace(side, ls, m[o].price);
    PlaceSplits(side, ls, m[o].price);
    if k < |ls| && ls[k].price == m[o].price {
      assert o !in ls[k].orders;
      ReplaceKeepsLevels(side, ls, m, k, ls[k].orders + [o]);
    } else {
      AddKeepsLevels(side, ls, m, InsertAt(ls, k, RefLevel(m[o].price, [o])), k);
    }
  }

  lemma ExtendMembers(ls: seq<RefLevel>, k: nat, level: RefLevel, o: RefOrder, x: RefOrder)
    requires k < |ls| && level.orders == ls[k].orders + [o]
    ensures InLevels(ls[k := level], x) <==> InLevels(ls, x) || x == o
  {
    var r := ls[k := level];
    assert o in r[k].orders;
    if InLevels(ls, x) {
      var i :| 0 <= i < |ls| && x in ls[i].orders;
      assert x in r[i].orders;
    }
    if InLevels(r, x) && x != o {
      var i :| 0 <= i < |r| && x in r[i].orders;
      assert x in ls[i].orders;
    }
  }

  lemma AddMembers(ls: seq<RefLevel>, k: nat, level: RefLevel, o: RefOrder, x: RefOrder)
    requires k <= |ls| && level.orders == [o]
    ensures InLevels(InsertAt(ls, k, level), x) <==> InLevels(ls, x) || x == o
  {
    var r := InsertAt(ls, k, level);
    assert o in r[k].orders;
    if InLevels(ls, x) {
      var i :| 0 <= i < |ls| && x in ls[i].orders;
      assert r[if i < k then i else i + 1] == ls[i];
    }
    if InLevels(r, x) {
      var i :| 0 <= i < |r| && x in r[i].orders;
      if i == k {
        assert x == o;
      } else {
        assert r[i] == ls[if i < k then i else i - 1];
      }
    }
  }

  lemma PushBackMembers(side: Side, ls: seq<RefLevel>, price: Price, o: RefOrder, x: RefOrder)
    ensures InLevels(PushBack(side, ls, price, o), x) <==> InLevels(ls, x) || x == o
  {
    var k := LevelPlace(side, ls, price);
    if k < |ls| && ls[k].price == price {
      ExtendMembers(ls, k, RefLevel(price, ls[k].orders + [o]), o, x);
    } else {
      AddMembers(ls, k, RefLevel(price, [o]), o, x);
    }
  }

  /** No price appears but that of the pushed cell. */
  lemma PushBackPrices(side: Side, ls: seq<RefLevel>, price: Price, o: RefOrder, i: nat)
    requires i < |PushBack(side, ls, price, o)|
    ensures var r := PushBack(side, ls, price, o);
            r[i].price == price || exists k :: 0 <= k < |ls| && ls[k].price == r[i].price
  {
    var p := LevelPlace(side, ls, price);
    var r := PushBack(side, ls, price, o);
    if r[i].price != price {
      assert r[i] == ls[if |r| == |ls| || i < p then i else i - 1];
    }
  }

  // ---------- The invariant of the whole naive book ----------

  datatype RefBook = RefBook(bids: seq<RefLevel>, asks: seq<RefLevel>) {

    function Levels(side: Side): seq<RefLevel> {
      if side.Buy? then bids else asks
    }

    function With(side: Side, ls: seq<RefLevel>): RefBook {
      if side.Buy? then this.(bids := ls) else this.(asks := ls)
    }
  }

  /** The live orders as a book of `BookSpec`: tombstones are dropped. */
  ghost function LiveBook(b: RefBook, om: map<OrderID, RefOrder>, m: Cells): Book {
    Book(LiveQueue(b.bids, m), LiveQueue(b.asks, m), IdsOf(om, m))
  }

  /** Where the map points. */
  ghost function IdsOf(om: map<OrderID, RefOrder>, m: Cells): map<OrderID, Place> {
    map id | id in om :: Shelf(At(m, om[id]).side, At(m, om[id]).price)
  }

  /** Not even levels that hold only tombstones cross. */
  ghost predicate KeysUncrossed(b: RefBook) {
    forall i, j :: 0 <= i < |b.bids| && 0 <= j < |b.asks| ==> b.bids[i].price < b.asks[j].price
  }

  ghost predicate Covered(b: RefBook, m: Cells, o: RefOrder)
    requires o in m
  {
    InLevels(b.Levels(m[o].side), o)
  }

  /** The map points at live cells, each by its own id. */
  ghost predicate MapsLive(om: map<OrderID, RefOrder>, m: Cells) {
    forall id :: id in om ==> om[id] in m && m[om[id]].id == id && m[om[id]].IsLive()
  }

  /** Each mapped cell is the newest of its id in its list. */
  ghost predicate MapsNewest(b: RefBook, om: map<OrderID, RefOrder>, m: Cells) {
    forall id :: id in om ==> Newest(b.Levels(At(m, om[id]).side), m, om[id])
  }

  ghost predicate RefOk(b: RefBook, om: map<OrderID, RefOrder>, m: Cells) {
    && LevelsOk(Buy, b.bids, m) && LevelsOk(Sell, b.asks, m)
    && (forall o {:trigger Covered(b, m, o)} :: o in m ==> Covered(b, m, o))
    && MapsLive(om, m) && MapsNewest(b, om, m)
    && KeysUncrossed(b)
    && Inv(LiveBook(b, om, m))
  }

  ghost predicate NoneEmpty(ls: seq<RefLevel>) {
    forall i :: 0 <= i < |ls| ==> ls[i].orders != []
  }

  /** The first order of the first level is gone. */
  function Dropped(ls: seq<RefLevel>): seq<RefLevel>
    requires ls != [] && ls[0].orders != []
  {
    ls[0 := RefLevel(ls[0].price, ls[0].orders[1..])]
  }

  /** Levels whose cells did not change keep their order and their queue. */
  lemma SameCells(side: Side, ls: seq<RefLevel>, m: Cells, m': Cells)
    requires LevelsOk(side, ls, m)
    requires forall i, x :: 0 <= i < |ls| && x in ls[i].orders ==> x in m' && At(m', x) == At(m, x)
    ensures LevelsOk(side, ls, m') && LiveQueue(ls, m') == LiveQueue(ls, m)
  {
    forall i | 0 <= i < |ls|
      ensures ListOk(side, ls[i].price, ls[i].orders, m')
    {
      assert ListOk(side, ls[i].price, ls[i].orders, m);
      assert forall j :: 0 <= j < |ls[i].orders| ==> ls[i].orders[j] in ls[i].orders;
    }
    QueueDependsOnCells(ls, m, m');
  }

  lemma OtherSideKeeps(side: Side, other: Side, ls: seq<RefLevel>, m: Cells, m': Cells, o: RefOrder)
    requires side != other && (o in m ==> m[o].side == side) && LevelsOk(other, ls, m)
    requires forall x :: x != o ==> At(m, x) == At(m', x) && (x in m <==> x in m')
    ensures LevelsOk(other, ls, m') && LiveQueue(ls, m') == LiveQueue(ls, m)
  {
    forall i, x | 0 <= i < |ls| && x in ls[i].orders
      ensures x in m' && At(m', x) == At(m, x)
    {
      CellPrice(other, ls, m, i, x);
    }
    SameCells(other, ls, m, m');
  }

  lemma DroppedCell(side: Side, ls: seq<RefLevel>, m: Cells, i: nat, x: RefOrder)
    requires LevelsOk(side, ls, m) && ls != [] && ls[0].orders != []
    requires i < |ls| && x in Dropped(ls)[i].orders
    ensures x != ls[0].orders[0] && x in ls[i].orders && x in m
  {
    if i == 0 {
      var j :| 0 <= j < |ls[0].orders[1..]| && ls[0].orders[1..][j] == x;
      assert x == ls[0].orders[j + 1];
    } else {
      CellElsewhere(side, ls, m, 0, i, ls[0].orders[0], x);
    }
    CellPrice(side, ls, m, i, x);
  }

  /** Dropping the first cell takes its order, if it was live, off the front of the queue. */
  lemma DroppedLevels(side: Side, ls: seq<RefLevel>, m: Cells)
    requires LevelsOk(side, ls, m) && ls != [] && ls[0].orders != []
    ensures var o := ls[0].orders[0];
            && o in m && m[o].side == side
            && LevelsOk(side, Dropped(ls), m - {o})
            && LiveQueue(ls, m) == (if m[o].IsLive() then [m[o]] else []) + LiveQueue(Dropped(ls), m - {o})
  {
    hide ListOk, PricesSorted;
    var o := ls[0].orders[0];
    CellPrice(side, ls, m, 0, o);
    TailOk(side, ls[0].price, ls[0].orders, m);
    ReplaceKeepsLevels(side, ls, m, 0, ls[0].orders[1..]);
    forall i, x | 0 <= i < |ls| && x in Dropped(ls)[i].orders
      ensures x in m - {o} && At(m - {o}, x) == At(m, x)
    {
      DroppedCell(side, ls, m, i, x);
    }
    SameCells(side, Dropped(ls), m, m - {o});
    assert Dropped(ls)[1..] == ls[1..];
  }

  lemma TailOk(side: Side, price: Price, os: seq<RefOrder>, m: Cells)
    requires ListOk(side, price, os, m) && os != []
    ensures ListOk(side, price, os[1..], m)
  {
  }

  // ---------- What each operation keeps ----------

  /** A mapped id names the last live order with that id at its price. */
  lemma NamesLast(b: RefBook, om: map<OrderID, RefOrder>, m: Cells, id: OrderID, dead: Entry) returns (n: nat)
    requires RefOk(b, om, m) && id in om && !dead.IsLive()
    ensures var o := om[id];
            && o in m && m[o].id == id
            && var q := LiveBook(b, om, m).Queue(m[o].side);
            && n < |q| && q[n] == m[o] && FindLast(q, id, m[o].price) == n
            && LiveQueue(b.Levels(m[o].side), m[o := dead]) == RemoveAt(q, n)
  {
    hide LevelsOk, Inv, KeysUncrossed, Newest;
    var o := om[id];
    var side := m[o].side;
    assert Covered(b, m, o);
    var i :| 0 <= i < |b.Levels(side)| && o in b.Levels(side)[i].orders;
    n := KillCell(side, b.Levels(side), m, i, o, dead);
    FindsLast(LiveBook(b, om, m).Queue(side), n, id, m[o].price);
  }

  /** The keys of the map are ids of live orders, and all of them while ids are distinct. */
  lemma MapHoldsRestingIds(b: RefBook, om: map<OrderID, RefOrder>, m: Cells, id: OrderID)
    requires RefOk(b, om, m)
    ensures id in om ==> IsResting(LiveBook(b, om, m), id)
    ensures Unique(BookSpec.Reference, LiveBook(b, om, m)) ==> (id in om <==> IsResting(LiveBook(b, om, m), id))
  {
    hide LevelsOk, Inv, KeysUncrossed, MapsNewest;
    if id in om {
      var n := NamesLast(b, om, m, id, NOTHING);
      assert HasId(LiveBook(b, om, m).Queue(m[om[id]].side), id);
    } else if Unique(BookSpec.Reference, LiveBook(b, om, m)) {
      assert id !in LiveBook(b, om, m).ids;
    }
  }

  lemma MapDrops(om: map<OrderID, RefOrder>, m: Cells, o: RefOrder)
    requires MapsLive(om, m) && o in m
    ensures var om' := if m[o].IsLive() then om - {m[o].id} else om;
            && MapsLive(om', m - {o})
            && IdsOf(om', m - {o}) == if m[o].IsLive() then IdsOf(om, m) - {m[o].id} else IdsOf(om, m)
  {
  }

  lemma MapRevalues(om: map<OrderID, RefOrder>, m: Cells, o: RefOrder, e: Entry)
    requires MapsLive(om, m) && o in m && m[o].IsLive()
    requires e.id == m[o].id && e.side == m[o].side && e.price == m[o].price
    ensures var om' := if e.IsLive() then om else om - {e.id};
            && MapsLive(om', m[o := e])
            && IdsOf(om', m[o := e]) == if e.IsLive() then IdsOf(om, m) else IdsOf(om, m) - {e.id}
  {
  }

  /** Cells that only die or change quantity leave the newest where they were. */
  lemma NewestRevalued(b: RefBook, om: map<OrderID, RefOrder>, m: Cells, o: RefOrder, e: Entry,
                       om': map<OrderID, RefOrder>)
    requires MapsNewest(b, om, m) && o in m && e.id == m[o].id && e.side == m[o].side && (e.IsLive() ==> m[o].IsLive())
    requires forall id :: id in om' ==> id in om && om'[id] == om[id]
    ensures MapsNewest(b, om', m[o := e])
  {
    var m' := m[o := e];
    forall id | id in om'
      ensures Newest(b.Levels(At(m', om[id]).side), m', om[id])
    {
      var ls := b.Levels(At(m, om[id]).side);
      forall i | 0 <= i < |ls|
        ensures LastOfId(ls[i].orders, m', om[id])
      {
        LastRevalued(ls[i].orders, m, o, e, om[id]);
      }
    }
  }

  lemma LastRevalued(os: seq<RefOrder>, m: Cells, o: RefOrder, e: Entry, x: RefOrder)
    requires LastOfId(os, m, x) && o in m && e.id == m[o].id && (e.IsLive() ==> m[o].IsLive())
    ensures LastOfId(os, m[o := e], x)
  {
    forall j, k | 0 <= j < k < |os| && os[j] == x && At(m[o := e], os[k]).IsLive()
      ensures At(m[o := e], os[k]).id != At(m[o := e], x).id
    {
      assert At(m, os[k]).IsLive();
    }
  }

  lemma LastDropped(os: seq<RefOrder>, m: Cells, o: RefOrder, x: RefOrder)
    requires LastOfId(os, m, x) && x != o
    ensures LastOfId(os, m - {o}, x)
    ensures os != [] ==> LastOfId(os[1..], m - {o}, x)
  {
    assert os != [] ==> forall i :: 0 <= i < |os[1..]| ==> os[1..][i] == os[i + 1];
    assert forall y :: At(m - {o}, y).IsLive() ==> At(m - {o}, y) == At(m, y);
  }

  lemma NewestDropped(b: RefBook, om: map<OrderID, RefOrder>, m: Cells, side: Side, om': map<OrderID, RefOrder>)
    requires MapsNewest(b, om, m) && b.Levels(side) != [] && b.Levels(side)[0].orders != []
    requires forall id :: id in om' ==> id in om && om'[id] == om[id] && om[id] != b.Levels(side)[0].orders[0]
    ensures MapsNewest(b.With(side, Dropped(b.Levels(side))), om', m - {b.Levels(side)[0].orders[0]})
  {
    var o := b.Levels(side)[0].orders[0];
    var b' := b.With(side, Dropped(b.Levels(side)));
    forall id | id in om'
      ensures Newest(b'.Levels(At(m - {o}, om[id]).side), m - {o}, om[id])
    {
      var s := At(m, om[id]).side;
      assert Newest(b.Levels(s), m, om[id]);
      forall i | 0 <= i < |b'.Levels(s)|
        ensures LastOfId(b'.Levels(s)[i].orders, m - {o}, om[id])
      {
        LastDropped(b.Levels(s)[i].orders, m, o, om[id]);
      }
    }
  }

  /** Dropping the first cell of a side, from the map too if it is live. */
  lemma DropKeeps(b: RefBook, om: map<OrderID, RefOrder>, m: Cells, side: Side)
    requires RefOk(b, om, m) && b.Levels(side) != [] && b.Levels(side)[0].orders != []
    ensures var o := b.Levels(side)[0].orders[0];
            var book := LiveBook(b, om, m);
            var q := book.Queue(side);
            var b' := b.With(side, Dropped(b.Levels(side)));
            && o in m && (m[o].IsLive() ==> q != [] && q[0] == m[o])
            && var om' := if m[o].IsLive() then om - {m[o].id} else om;
            && RefOk(b', om', m - {o})
            && LiveBook(b', om', m - {o})
               == if m[o].IsLive() then book.With(side, q[1..]).(ids := book.ids - {m[o].id}) else book
  {
    hide LevelsOk, InLevels, Inv, Newest, IdsOf, LiveQueue, KeysUncrossed;
    var o := b.Levels(side)[0].orders[0];
    DroppedSides(b, om, m, side);
    var om' := if m[o].IsLive() then om - {m[o].id} else om;
    MapDrops(om, m, o);
    NewestDropped(b, om, m, side, om');
    hide MapsLive, MapsNewest;
    DroppedBook(b, om, m, side);
    DroppedInv(b, om, m, side);
    DroppedCovers(b, m, side);
  }

  lemma DroppedSides(b: RefBook, om: map<OrderID, RefOrder>, m: Cells, side: Side)
    requires RefOk(b, om, m) && b.Levels(side) != [] && b.Levels(side)[0].orders != []
    ensures var o := b.Levels(side)[0].orders[0];
            var b' := b.With(side, Dropped(b.Levels(side)));
            var q := LiveBook(b, om, m).Queue(side);
            && o in m && (m[o].IsLive() ==> q != [] && q[0] == m[o])
            && LevelsOk(Buy, b'.bids, m - {o}) && LevelsOk(Sell, b'.asks, m - {o}) && KeysUncrossed(b')
  {
    hide LevelsOk, InLevels, Inv, MapsLive, MapsNewest;
    var o := b.Levels(side)[0].orders[0];
    DroppedLevels(side, b.Levels(side), m);
    OtherSideKeeps(side, side.Opposite(), b.Levels(side.Opposite()), m, m - {o}, o);
  }

  lemma DroppedInv(b: RefBook, om: map<OrderID, RefOrder>, m: Cells, side: Side)
    requires RefOk(b, om, m) && b.Levels(side) != [] && b.Levels(side)[0].orders != []
    ensures var o := b.Levels(side)[0].orders[0];
            var om' := if o in m && m[o].IsLive() then om - {m[o].id} else om;
            && o in m && Inv(LiveBook(b.With(side, Dropped(b.Levels(side))), om', m - {o}))
  {
    hide LevelsOk, InLevels, MapsLive, MapsNewest, LiveQueue, SoundQueue, Uncrossed;
    var q := LiveBook(b, om, m).Queue(side);
    DroppedBook(b, om, m, side);
    if q != [] {
      RemoveKeepsInv(LiveBook(b, om, m), side, 0);
      assert RemoveAt(q, 0) == q[1..];
    }
  }

  lemma DroppedBook(b: RefBook, om: map<OrderID, RefOrder>, m: Cells, side: Side)
    requires RefOk(b, om, m) && b.Levels(side) != [] && b.Levels(side)[0].orders != []
    ensures var o := b.Levels(side)[0].orders[0];
            var book := LiveBook(b, om, m);
            && o in m && (m[o].IsLive() ==> book.Queue(side) != [])
            && LiveBook(b.With(side, Dropped(b.Levels(side))), if m[o].IsLive() then om - {m[o].id} else om, m - {o})
               == if m[o].IsLive() then book.With(side, book.Queue(side)[1..]).(ids := book.ids - {m[o].id}) else book
  {
    hide LevelsOk, InLevels, Inv, MapsNewest, IdsOf;
    var ls := b.Levels(side);
    var o := ls[0].orders[0];
    DroppedLevels(side, ls, m);
    MapDrops(om, m, o);
    OtherSideKeeps(side, side.Opposite(), b.Levels(side.Opposite()), m, m - {o}, o);
    hide MapsLive;
    assert m[o].IsLive() ==> LiveBook(b, om, m).Queue(side)[1..] == LiveQueue(Dropped(ls), m - {o});
  }

  lemma DroppedCovers(b: RefBook, m: Cells, side: Side)
    requires forall o {:trigger Covered(b, m, o)} :: o in m ==> Covered(b, m, o)
    requires b.Levels(side) != [] && b.Levels(side)[0].orders != []
    ensures var o := b.Levels(side)[0].orders[0];
            var b' := b.With(side, Dropped(b.Levels(side)));
            forall x {:trigger Covered(b', m - {o}, x)} :: x in m - {o} ==> Covered(b', m - {o}, x)
  {
    hide InLevels;
    var o := b.Levels(side)[0].orders[0];
    forall x | x in m - {o}
      ensures Covered(b.With(side, Dropped(b.Levels(side))), m - {o}, x)
    {
      assert Covered(b, m, x);
      if m[x].side == side {
        DroppedStays(b.Levels(side), x);
      }
    }
  }

  lemma DroppedStays(ls: seq<RefLevel>, x: RefOrder)
    requires ls != [] && ls[0].orders != [] && InLevels(ls, x) && x != ls[0].orders[0]
    ensures InLevels(Dropped(ls), x)
  {
    var i :| 0 <= i < |ls| && x in ls[i].orders;
    assert i > 0 ==> Dropped(ls)[i] == ls[i];
    if i == 0 {
      assert Dropped(ls)[0].orders == ls[0].orders[1..];
      var j :| 0 <= j < |ls[0].orders| && ls[0].orders[j] == x;
      assert ls[0].orders[1..][j - 1] == x;
    }
  }

  /** Reducing the first cell of a side, which is live, to a positive rest. */
  lemma ReduceKeeps(b: RefBook, om: map<OrderID, RefOrder>, m: Cells, side: Side, fill: Quantity)
    requires RefOk(b, om, m) && b.Levels(side) != [] && b.Levels(side)[0].orders != []
    requires var o := b.Levels(side)[0].orders[0]; o in m && m[o].IsLive() && 0 < fill < m[o].remaining
    ensures var o := b.Levels(side)[0].orders[0];
            var q := LiveBook(b, om, m).Queue(side);
            var m' := m[o := Reduced(m[o], fill)];
            && q != [] && q[0] == m[o]
            && RefOk(b, om, m')
            && LiveBook(b, om, m') == LiveBook(b, om, m).With(side, [Reduced(m[o], fill)] + q[1..])
  {
    hide LevelsOk, InLevels, SoundQueue, Uncrossed, Newest, IdsOf;
    var ls := b.Levels(side);
    var o := ls[0].orders[0];
    var e := Reduced(m[o], fill);
    MapRevalues(om, m, o, e);
    NewestRevalued(b, om, m, o, e, om);
    hide MapsLive, MapsNewest;
    var m' := m[o := e];
    var q := LiveBook(b, om, m).Queue(side);
    DroppedLevels(side, ls, m);
    OtherSideKeeps(side, side.Opposite(), b.Levels(side.Opposite()), m, m', o);
    CellPrice(side, ls, m, 0, o);
    RevaluedLevels(side, ls, m, o, e);
    DroppedLevels(side, ls, m');
    assert m' - {o} == m - {o};
    assert LiveBook(b, om, m') == LiveBook(b, om, m).With(side, [e] + q[1..]);
    ReducedFrontKeepsInv(LiveBook(b, om, m), side, fill);
    forall x | x in m'
      ensures Covered(b, m', x)
    {
      assert Covered(b, m, x);
    }
  }

  /** A cell may change its quantity and status but not its side and price. */
  lemma RevaluedLevels(side: Side, ls: seq<RefLevel>, m: Cells, o: RefOrder, e: Entry)
    requires LevelsOk(side, ls, m) && o in m && e.side == m[o].side && e.price == m[o].price
    requires e.status == Cancelled || e.IsSound()
    ensures LevelsOk(side, ls, m[o := e])
  {
    forall i | 0 <= i < |ls|
      ensures ListOk(side, ls[i].price, ls[i].orders, m[o := e])
    {
      assert ListOk(side, ls[i].price, ls[i].orders, m);
    }
  }

  /** Cancelling overwrites the status of a cell: to the live book that is a cancel. */
  lemma CancelKeeps(b: RefBook, om: map<OrderID, RefOrder>, m: Cells, id: OrderID)
    requires RefOk(b, om, m) && id in om
    ensures var o := om[id];
            var m' := m[o := m[o].(status := Cancelled)];
            && o in m && m[o].id == id && RefOk(b, om - {id}, m')
            && Step(LiveBook(b, om - {id}, m'), AddReport(NO_EVENT, CancelReport(m[o])))
               == Cancel(BookSpec.Reference, LiveBook(b, om, m), id)
  {
    hide LevelsOk, SoundQueue, Uncrossed, Newest, InLevels;
    var o := om[id];
    var side := m[o].side;
    var dead := m[o].(status := Cancelled);
    var m' := m[o := dead];
    var n := NamesLast(b, om, m, id, dead);
    MapRevalues(om, m, o, dead);
    NewestRevalued(b, om, m, o, dead, om - {id});
    CancelKeepsInv(BookSpec.Reference, LiveBook(b, om, m), id);
    CancelShelved(BookSpec.Reference, LiveBook(b, om, m), id, side, m[o].price, n);
    hide MapsLive, MapsNewest, Cancel, IdsOf, FindLast;
    OtherSideKeeps(side, side.Opposite(), b.Levels(side.Opposite()), m, m', o);
    RevaluedLevels(side, b.Levels(side), m, o, dead);
    assert LiveBook(b, om - {id}, m') == TakeOut(LiveBook(b, om, m), id, side, n).book;
    forall x | x in m'
      ensures Covered(b, m', x)
    {
      assert Covered(b, m, x);
    }
  }

  /** The levels a matched order faces refuse it. */
  ghost predicate Refused(o: IncomingOrder, ls: seq<RefLevel>) {
    forall i :: 0 <= i < |ls| ==> !Crosses(o, ls[i].price)
  }

  lemma MapAdds(om: map<OrderID, RefOrder>, m: Cells, o: RefOrder, e: Entry)
    requires MapsLive(om, m) && o !in m && e.IsLive()
    ensures MapsLive(om[e.id := o], m[o := e])
    ensures IdsOf(om[e.id := o], m[o := e]) == IdsOf(om, m)[e.id := Shelf(e.side, e.price)]
  {
  }

  lemma LastPushed(os: seq<RefOrder>, m: Cells, o: RefOrder, e: Entry, x: RefOrder)
    requires o !in os && o !in m && (x == o || (LastOfId(os, m, x) && At(m, x).id != e.id))
    ensures LastOfId(os + [o], m[o := e], x) && LastOfId(os, m[o := e], x)
  {
    assert forall i :: 0 <= i < |os| ==> os[i] in os;
  }

  lemma OneIsLast(m: Cells, o: RefOrder, x: RefOrder)
    ensures LastOfId([o], m, x)
  {
  }

  /** In the levels of a side, a pushed cell is the newest of its id, and others stay the newest of theirs. */
  lemma NewestPushed(side: Side, ls: seq<RefLevel>, m: Cells, o: RefOrder, e: Entry, x: RefOrder)
    requires !InLevels(ls, o) && o !in m && (x == o || (Newest(ls, m, x) && At(m, x).id != e.id))
    ensures Newest(PushBack(side, ls, e.price, o), m[o := e], x)
    ensures Newest(ls, m[o := e], x)
  {
    var r := PushBack(side, ls, e.price, o);
    var k := LevelPlace(side, ls, e.price);
    forall i | 0 <= i < |ls|
      ensures LastOfId(ls[i].orders + [o], m[o := e], x) && LastOfId(ls[i].orders, m[o := e], x)
    {
      assert o !in ls[i].orders;
      LastPushed(ls[i].orders, m, o, e, x);
    }
    OneIsLast(m[o := e], o, x);
    hide LastOfId;
    forall i | 0 <= i < |r|
      ensures LastOfId(r[i].orders, m[o := e], x)
    {
      if |r| == |ls| {
        assert i != k ==> r[i] == ls[i];
      } else {
        assert i != k ==> r[i] == ls[if i < k then i else i - 1];
      }
    }
  }

  lemma NewestAdds(b: RefBook, om: map<OrderID, RefOrder>, m: Cells, o: RefOrder, e: Entry)
    requires MapsLive(om, m) && MapsNewest(b, om, m) && o !in m && !InLevels(b.bids, o) && !InLevels(b.asks, o)
    ensures MapsNewest(b.With(e.side, PushBack(e.side, b.Levels(e.side), e.price, o)), om[e.id := o], m[o := e])
  {
    hide InLevels, Newest, PushBack;
    var b' := b.With(e.side, PushBack(e.side, b.Levels(e.side), e.price, o));
    var om', m' := om[e.id := o], m[o := e];
    forall id | id in om'
      ensures Newest(b'.Levels(At(m', om'[id]).side), m', om'[id])
    {
      var s := At(m', om'[id]).side;
      NewestPushed(s, b.Levels(s), m, o, e, om'[id]);
    }
  }

  lemma NotInLevels(b: RefBook, om: map<OrderID, RefOrder>, m: Cells, side: Side, o: RefOrder)
    requires RefOk(b, om, m) && o !in m
    ensures !InLevels(b.Levels(side), o)
  {
    if InLevels(b.Levels(side), o) {
      var i :| 0 <= i < |b.Levels(side)| && o in b.Levels(side)[i].orders;
      CellPrice(side, b.Levels(side), m, i, o);
    }
  }

  /** If its levels are refused, so is the live queue. */
  lemma RefusedIsDone(o: IncomingOrder, left: Quantity, side: Side, ls: seq<RefLevel>, m: Cells)
    requires LevelsOk(side, ls, m) && Refused(o, ls)
    ensures Done(o, left, LiveQueue(ls, m))
  {
    if LiveQueue(ls, m) != [] {
      var i, x := QueueMember(ls, m, 0);
      CellPrice(side, ls, m, i, x);
    }
  }

  lemma PushBackUncrossed(b: RefBook, order: IncomingOrder, o: RefOrder)
    requires KeysUncrossed(b) && order.otype.Limit? && Refused(order, b.Levels(order.side.Opposite()))
    ensures KeysUncrossed(b.With(order.side, PushBack(order.side, b.Levels(order.side), order.price, o)))
  {
    var r := PushBack(order.side, b.Levels(order.side), order.price, o);
    var opposite := b.Levels(order.side.Opposite());
    forall i, j | 0 <= i < |r| && 0 <= j < |opposite|
      ensures Better(order.side.Opposite(), r[i].price, opposite[j].price)
    {
      PushBackPrices(order.side, b.Levels(order.side), order.price, o, i);
    }
  }

  /** Resting a new cell keeps the naive book well formed, even under an id in use. */
  lemma RestKeeps(b: RefBook, om: map<OrderID, RefOrder>, m: Cells, order: IncomingOrder, left: Quantity, o: RefOrder)
    requires RefOk(b, om, m) && o !in m
    requires order.otype.Limit? && 0 < left <= order.quantity && Refused(order, b.Levels(order.side.Opposite()))
    ensures var b' := b.With(order.side, PushBack(order.side, b.Levels(order.side), order.price, o));
            var om', m' := om[order.id := o], m[o := EntryOf(order, left)];
            LiveBook(b', om', m') == Rest(LiveBook(b, om, m), order, left) && RefOk(b', om', m')
  {
    hide LevelsOk, KeysUncrossed, Refused, SoundQueue, Uncrossed, InLevels, Newest, IdsOf;
    var side := order.side;
    var e := EntryOf(order, left);
    var ls := b.Levels(side);
    var b' := b.With(side, PushBack(side, ls, order.price, o));
    var om', m' := om[order.id := o], m[o := e];
    NotInLevels(b, om, m, Buy, o);
    NotInLevels(b, om, m, Sell, o);
    MapAdds(om, m, o, e);
    NewestAdds(b, om, m, o, e);
    hide MapsLive, MapsNewest;
    PushedCells(b, om, m, side, o, e);
    PushBackInserts(side, ls, m', o);
    assert LiveBook(b', om', m') == Rest(LiveBook(b, om, m), order, left);
    PushBackKeepsLevels(side, ls, m', o);
    PushBackUncrossed(b, order, o);
    RefusedIsDone(order, left, side.Opposite(), b.Levels(side.Opposite()), m);
    RestKeepsInv(LiveBook(b, om, m), order, left);
    forall x | x in m'
      ensures Covered(b', m', x)
    {
      PushBackMembers(side, ls, order.price, o, x);
      assert x == o || Covered(b, m, x);
    }
  }

  /** A new cell changes nothing about the old ones. */
  lemma PushedCells(b: RefBook, om: map<OrderID, RefOrder>, m: Cells, side: Side, o: RefOrder, e: Entry)
    requires RefOk(b, om, m) && o !in m
    ensures LevelsOk(side, b.Levels(side), m[o := e])
    ensures LiveQueue(b.Levels(side), m[o := e]) == LiveQueue(b.Levels(side), m)
    ensures LevelsOk(side.Opposite(), b.Levels(side.Opposite()), m[o := e])
    ensures LiveQueue(b.Levels(side.Opposite()), m[o := e]) == LiveQueue(b.Levels(side.Opposite()), m)
  {
    forall s: Side, i, x | 0 <= i < |b.Levels(s)| && x in b.Levels(s)[i].orders
      ensures x in m[o := e] && At(m[o := e], x) == At(m, x)
    {
      CellPrice(s, b.Levels(s), m, i, x);
    }
    SameCells(side, b.Levels(side), m, m[o := e]);
    SameCells(side.Opposite(), b.Levels(side.Opposite()), m, m[o := e]);
  }

  lemma FrontIsSound(b: RefBook, om: map<OrderID, RefOrder>, m: Cells, side: Side)
    requires RefOk(b, om, m) && b.Levels(side) != [] && b.Levels(side)[0].orders != []
    ensures var o := b.Levels(side)[0].orders[0];
            o in m && m[o].side == side && m[o].price == b.Levels(side)[0].price
            && (m[o].status == Cancelled || m[o].IsSound())
  {
    CellPrice(side, b.Levels(side), m, 0, b.Levels(side)[0].orders[0]);
  }

  lemma NewestTail(b: RefBook, om: map<OrderID, RefOrder>, m: Cells, side: Side)
    requires MapsNewest(b, om, m) && b.Levels(side) != []
    ensures MapsNewest(b.With(side, b.Levels(side)[1..]), om, m)
  {
    var b' := b.With(side, b.Levels(side)[1..]);
    forall id | id in om
      ensures Newest(b'.Levels(At(m, om[id]).side), m, om[id])
    {
      assert forall i :: 0 <= i < |b'.Levels(side)| ==> b'.Levels(side)[i] == b.Levels(side)[i + 1];
    }
  }

  /** Erasing an emptied first level changes no order. */
  lemma EmptyLevelGone(b: RefBook, om: map<OrderID, RefOrder>, m: Cells, side: Side)
    requires RefOk(b, om, m) && b.Levels(side) != [] && b.Levels(side)[0].orders == []
    ensures RefOk(b.With(side, b.Levels(side)[1..]), om, m)
    ensures LiveBook(b.With(side, b.Levels(side)[1..]), om, m) == LiveBook(b, om, m)
  {
    hide MapsLive, Inv, IdsOf;
    var ls := b.Levels(side);
    var b' := b.With(side, ls[1..]);
    LevelsTail(side, ls, m);
    NewestTail(b, om, m, side);
    hide MapsNewest;
    assert LiveQueue(ls, m) == LiveQueue(ls[1..], m);
    forall o | o in m
      ensures Covered(b', m, o)
    {
      assert Covered(b, m, o);
      if m[o].side == side {
        var i :| 0 <= i < |ls| && o in ls[i].orders;
        assert ls[1..][i - 1] == ls[i];
      }
    }
  }

  /** If the best level refuses an order, so do all, and matching is over. */
  lemma BestRefuses(b: RefBook, om: map<OrderID, RefOrder>, m: Cells, order: IncomingOrder, left: Quantity,
                    ev: MatchEvent)
    requires RefOk(b, om, m)
    requires var ls := b.Levels(order.side.Opposite()); ls == [] || !Crosses(order, ls[0].price)
    ensures Refused(order, b.Levels(order.side.Opposite()))
    ensures var q := LiveBook(b, om, m).Queue(order.side.Opposite());
            Match(order, left, q, ev) == Outcome(q, left, ev)
  {
    RefusedIsDone(order, left, order.side.Opposite(), b.Levels(order.side.Opposite()), m);
  }

  // ---------- Quantities ----------

  lemma TotalAtOtherPrices(side: Side, ls: seq<RefLevel>, m: Cells, price: Price)
    requires LevelsOk(side, ls, m) && forall i :: 0 <= i < |ls| ==> ls[i].price != price
    ensures TotalAt(LiveQueue(ls, m), price) == 0
  {
    var q := LiveQueue(ls, m);
    forall n | 0 <= n < |q|
      ensures q[n].price != price
    {
      var i, o := QueueMember(ls, m, n);
      CellPrice(side, ls, m, i, o);
    }
    Levels.TotalAtElsewhere(q, price);
  }

  /** The live quantity at a price is that of the live orders of its level. */
  lemma {:induction false} TotalAtIsLive(side: Side, ls: seq<RefLevel>, m: Cells, k: nat)
    requires LevelsOk(side, ls, m) && k < |ls|
    ensures TotalAt(LiveQueue(ls, m), ls[k].price) == Total(Live(ls[k].orders, m))
  {
    hide Total, TotalAt, Live;
    var a, b := Live(ls[0].orders, m), LiveQueue(ls[1..], m);
    LevelsTail(side, ls, m);
    Levels.TotalAtOfConcat(a, b, ls[k].price);
    forall n | 0 <= n < |a|
      ensures a[n].price == ls[0].price
    {
      LiveListPrice(side, ls[0].price, ls[0].orders, m, n);
    }
    if k == 0 {
      Levels.TotalAtHere(a, ls[0].price);
      TotalAtOtherPrices(side, ls[1..], m, ls[0].price);
    } else {
      Levels.TotalAtElsewhere(a, ls[k].price);
      TotalAtIsLive(side, ls[1..], m, k - 1);
    }
  }

  /**
   No live order is better than the first level, and the best live order is at
   its price exactly if any of its own orders is live.
   */
  lemma BestKey(b: RefBook, om: map<OrderID, RefOrder>, m: Cells, side: Side)
    requires RefOk(b, om, m) && b.Levels(side) != []
    ensures var q := LiveBook(b, om, m).Queue(side);
            var level := b.Levels(side)[0];
            && (q != [] ==> !Better(side, q[0].price, level.price))
            && (q != [] && q[0].price == level.price <==> Live(level.orders, m) != [])
  {
    var ls := b.Levels(side);
    var q := LiveBook(b, om, m).Queue(side);
    LevelsTail(side, ls, m);
    if Live(ls[0].orders, m) != [] {
      LiveListPrice(side, ls[0].price, ls[0].orders, m, 0);
    } else if q != [] {
      QueueIsWorse(side, ls[1..], m, ls[0].price, 0);
    }
  }

  lemma PushBackNonempty(side: Side, ls: seq<RefLevel>, price: Price, o: RefOrder)
    requires NoneEmpty(ls)
    ensures NoneEmpty(PushBack(side, ls, price, o))
  {
  }

  // ---------- Which prices have levels ----------

  function Prices(ls: seq<RefLevel>): set<Price> {
    set l | l in ls :: l.price
  }

  lemma SweptPrices(ls: seq<RefLevel>, r: seq<RefLevel>)
    requires ls != [] && r != [] && r[0].price == ls[0].price && r[1..] == ls[1..]
    ensures Prices(r) <= Prices(ls) && Prices(r[1..]) <= Prices(ls)
  {
    forall i | 0 <= i < |r|
      ensures r[i].price in Prices(ls)
    {
      if i > 0 {
        assert r[i] == r[1..][i - 1] == ls[1..][i - 1] == ls[i];
      } else {
        assert ls[0] in ls;
      }
    }
  }

  lemma PushedPrices(side: Side, ls: seq<RefLevel>, price: Price, o: RefOrder)
    ensures Prices(PushBack(side, ls, price, o)) <= Prices(ls) + {price}
  {
    var r := PushBack(side, ls, price, o);
    forall i | 0 <= i < |r|
      ensures r[i].price in Prices(ls) + {price}
    {
      PushBackPrices(side, ls, price, o, i);
    }
  }
}
