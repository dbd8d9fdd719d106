/**
 What every operation on a book keeps: sound, sorted and uncrossed queues, and
 distinct ids as long as no id in use is taken again.
 */
module BookLaws {
  import opened Types
  import opened BookSpec
  import opened MatchingLaws

  // ---------- Fills ----------

  lemma NothingReported(ids: map<OrderID, Place>)
    ensures ids - ReportedIds(NO_EVENT.reports) == ids
  {
    assert ReportedIds([]) == {};
  }

  lemma OneMoreReported(ids: map<OrderID, Place>, reports: seq<Report>, r: Report)
    ensures ids - ReportedIds(reports + [r]) == ids - ReportedIds(reports) - {r.orderId}
  {
    assert ReportedIds(reports + [r]) == ReportedIds(reports) + {r.orderId} by {
      forall id | id in ReportedIds(reports) + {r.orderId}
        ensures id in ReportedIds(reports + [r])
      {
        var x :| x in reports + [r] && x.orderId == id;
      }
    }
  }

  /** Replacing a queue by one whose orders are some of its own, in order, keeps a book. */
  lemma ShrunkQueueKeepsInv(book: Book, side: Side, q: seq<Entry>, at: seq<nat>)
    requires Inv(book)
    requires |at| == |q| && forall i, j :: 0 <= i < j < |at| ==> at[i] < at[j]
    requires forall i :: 0 <= i < |at| ==>
               at[i] < |book.Queue(side)| && var e := book.Queue(side)[at[i]];
               q[i].price == e.price && q[i].side == e.side && q[i].IsSound()
    ensures Inv(book.With(side, q))
  {
  }

  lemma PlacesFrom(n: nat, from: nat) returns (at: seq<nat>)
    requires from <= n
    ensures |at| == n - from && forall i :: 0 <= i < |at| ==> at[i] == from + i
  {
    at := seq(n - from, i requires 0 <= i => from + i);
  }

  lemma FillKeepsInv(book: Book, o: IncomingOrder, left: Quantity, ev: MatchEvent)
    requires Inv(book) && !Done(o, left, book.Queue(o.side.Opposite()))
    ensures var f := Fill(o, left, book.Queue(o.side.Opposite()), ev);
            Inv(book.With(o.side.Opposite(), f.queue)) && 0 <= f.left < left
  {
    var side := o.side.Opposite();
    var q := book.Queue(side);
    var f := Fill(o, left, q, ev);
    assert q[0].IsSound();
    var at := PlacesFrom(|q|, |q| - |f.queue|);
    ShrunkQueueKeepsInv(book, side, f.queue, at);
  }

  /** Reducing the front of a queue to a positive rest keeps a book. */
  lemma ReducedFrontKeepsInv(book: Book, side: Side, fill: Quantity)
    requires Inv(book) && book.Queue(side) != [] && 0 < fill < book.Queue(side)[0].remaining
    ensures Inv(book.With(side, [Reduced(book.Queue(side)[0], fill)] + book.Queue(side)[1..]))
  {
    var q := book.Queue(side);
    var at := PlacesFrom(|q|, 0);
    ShrunkQueueKeepsInv(book, side, [Reduced(q[0], fill)] + q[1..], at);
  }

  lemma {:induction false} MatchKeepsInv(book: Book, o: IncomingOrder, left: Quantity, ev: MatchEvent)
    requires Inv(book)
    ensures Inv(book.With(o.side.Opposite(), Match(o, left, book.Queue(o.side.Opposite()), ev).queue))
    decreases |book.Queue(o.side.Opposite())|
  {
    var side := o.side.Opposite();
    var q := book.Queue(side);
    if Done(o, left, q) {
      assert book.With(side, q) == book;
    } else {
      var f := Fill(o, left, q, ev);
      FillKeepsInv(book, o, left, ev);
      if |f.queue| < |q| {
        MatchKeepsInv(book.With(side, f.queue), o, f.left, f.event);
      }
    }
  }

  /** Matching never overfills, and stops only when it must. */
  lemma {:induction false} MatchStopsWhenDone(o: IncomingOrder, left: Quantity, q: seq<Entry>, ev: MatchEvent)
    requires left >= 0 && forall i :: 0 <= i < |q| ==> q[i].remaining > 0
    ensures var m := Match(o, left, q, ev); 0 <= m.left <= left && Done(o, m.left, m.queue)
    decreases |q|
  {
    if !Done(o, left, q) {
      var f := Fill(o, left, q, ev);
      if |f.queue| < |q| {
        MatchStopsWhenDone(o, f.left, f.queue, f.event);
      }
    }
  }

  // ---------- Resting ----------

  /** Where `e` goes: behind everything at least as good, before everything worse. */
  lemma {:induction false} InsertPlace(q: seq<Entry>, e: Entry) returns (k: nat)
    requires Sorted(e.side, q)
    ensures k <= |q| && Insert(q, e) == InsertAt(q, k, e)
    ensures forall i :: 0 <= i < |q| ==> (k <= i <==> Better(e.side, e.price, q[i].price))
  {
    if q == [] || Better(e.side, e.price, q[0].price) {
      k := 0;
    } else {
      var k' := InsertPlace(q[1..], e);
      k := k' + 1;
      assert q[..k] == [q[0]] + q[1..][..k'];
      assert q[k..] == q[1..][k'..];
      forall i | 0 < i < |q|
        ensures k <= i <==> Better(e.side, e.price, q[i].price)
      {
        assert q[i] == q[1..][i - 1];
      }
    }
  }

  /** Inserting between a part that is at least as good and a part that is worse. */
  lemma {:induction false} InsertBetween(a: seq<Entry>, b: seq<Entry>, e: Entry)
    requires forall i :: 0 <= i < |a| ==> !Better(e.side, e.price, a[i].price)
    requires b == [] || Better(e.side, e.price, b[0].price)
    ensures Insert(a + b, e) == a + [e] + b
  {
    if a == [] {
      assert a + b == b;
    } else {
      assert (a + b)[1..] == a[1..] + b;
      InsertBetween(a[1..], b, e);
    }
  }

  lemma InsertKeepsSound(side: Side, q: seq<Entry>, e: Entry)
    requires SoundQueue(side, q) && e.side == side && e.IsSound()
    ensures SoundQueue(side, Insert(q, e))
    ensures forall x :: x in Insert(q, e) <==> x in q || x == e
    ensures |Insert(q, e)| == |q| + 1
  {
    var k := InsertPlace(q, e);
    var r := Insert(q, e);
    InsertedIsSound(side, q, r, k, e);
    forall i | 0 <= i < |q|
      ensures q[i] in r
    {
      assert q[i] == r[if i < k then i else i + 1];
    }
  }

  /** `r` is `q` with `e` at place `k`. */
  lemma InsertedIsSound(side: Side, q: seq<Entry>, r: seq<Entry>, k: nat, e: Entry)
    requires SoundQueue(side, q) && e.side == side && e.IsSound()
    requires k <= |q| && |r| == |q| + 1
    requires forall i {:trigger r[i]} :: 0 <= i < |r| ==> r[i] == if i < k then q[i] else if i == k then e else q[i - 1]
    requires forall i :: 0 <= i < |q| ==> (k <= i <==> Better(side, e.price, q[i].price))
    ensures SoundQueue(side, r)
  {
  }

  /** What is left of a Limit order after matching can rest without crossing the book. */
  lemma RestKeepsInv(book: Book, o: IncomingOrder, left: Quantity)
    requires Inv(book) && o.otype.Limit? && 0 < left <= o.quantity
    requires Done(o, left, book.Queue(o.side.Opposite()))
    ensures Inv(Rest(book, o, left))
    ensures Rest(book, o, left).Size() == book.Size() + 1
  {
    var e := EntryOf(o, left);
    InsertKeepsSound(o.side, book.Queue(o.side), e);
    var r := Insert(book.Queue(o.side), e);
    forall i, j | 0 <= i < |r| && 0 <= j < |book.Queue(o.side.Opposite())|
      ensures Better(o.side.Opposite(), r[i].price, book.Queue(o.side.Opposite())[j].price)
    {
      assert r[i] in r;
    }
  }

  // ---------- Whole operations ----------

  /** After matching, the order is filled or the opposite queue refuses it. */
  lemma SweptIsDone(book: Book, o: IncomingOrder)
    requires Inv(book) && o.quantity > 0
    ensures Inv(Swept(book, o))
    ensures var left := MatchIn(book, o).left;
            0 <= left <= o.quantity && Done(o, left, Swept(book, o).Queue(o.side.Opposite()))
  {
    MatchKeepsInv(book, o, o.quantity, NO_EVENT);
    MatchStopsWhenDone(o, o.quantity, book.Queue(o.side.Opposite()), NO_EVENT);
  }

  lemma SettleKeepsInv(book: Book, o: IncomingOrder, room: bool)
    requires Inv(book) && WellFormed(o)
    ensures Inv(Settle(book, o, room).book)
  {
    SweptIsDone(book, o);
    if o.otype.Limit? && room && MatchIn(book, o).left != 0 {
      RestKeepsInv(Swept(book, o), o, MatchIn(book, o).left);
    }
  }

  lemma RemoveKeepsInv(book: Book, side: Side, k: nat)
    requires Inv(book) && k < |book.Queue(side)|
    ensures Inv(book.With(side, RemoveAt(book.Queue(side), k)))
  {
    var q := book.Queue(side);
    var at := seq(|q| - 1, i requires 0 <= i => if i < k then i else i + 1);
    ShrunkQueueKeepsInv(book, side, RemoveAt(q, k), at);
  }

  /** Every order keeps the book on either engine, whatever its id. */
  lemma ProcessKeepsInv(m: Machine, book: Book, o: IncomingOrder)
    requires Inv(book)
    ensures Inv(Process(m, book, o).book)
  {
    if Misfiles(m, book, o) {
      SweptIsDone(book, o);
    } else if m.Accepts(o) {
      SettleKeepsInv(book, o, m.HasRoom(Swept(book, o)));
    }
  }

  lemma CancelKeepsInv(m: Machine, book: Book, id: OrderID)
    requires Inv(book)
    ensures Inv(Cancel(m, book, id).book)
  {
    if Cancellable(book, id) && id in book.ids && !IsLost(m, book, id) {
      var p := book.ids[id];
      var k := FindLast(book.Queue(p.side), id, p.price);
      if k < |book.Queue(p.side)| {
        RemoveKeepsInv(book, p.side, k);
      }
    }
  }

  // ---------- Which order a cancel finds ----------

  lemma NothingToCancel(m: Machine, book: Book, id: OrderID)
    requires !IsResting(book, id) && !IsLost(m, book, id)
    ensures Cancel(m, book, id) == Step(book, NO_EVENT)
  {
  }

  /** Nothing was filled: matching left the book as it was. */
  lemma {:induction false} UnfilledMatchKeepsQueue(o: IncomingOrder, left: Quantity, q: seq<Entry>, ev: MatchEvent)
    requires left >= 0 && forall i :: 0 <= i < |q| ==> q[i].remaining > 0
    ensures Match(o, left, q, ev).left == left ==> Match(o, left, q, ev) == Outcome(q, left, ev)
  {
    if !Done(o, left, q) {
      var f := Fill(o, left, q, ev);
      if |f.queue| < |q| {
        MatchStopsWhenDone(o, f.left, f.queue, f.event);
      }
    }
  }

  /** A new order goes behind every order at its price, so it is the last of its id there. */
  lemma InsertedIsLast(q: seq<Entry>, e: Entry) returns (k: nat)
    requires Sorted(e.side, q)
    ensures k <= |q| && Insert(q, e) == InsertAt(q, k, e)
    ensures FindLast(Insert(q, e), e.id, e.price) == k
  {
    k := InsertPlace(q, e);
    var r := Insert(q, e);
    forall i | k < i < |r|
      ensures !Matches(r[i], e.id, e.price)
    {
      assert r[i] == q[i - 1];
    }
  }

  /** An id that is mapped to an order on a level takes that order out. */
  lemma CancelShelved(m: Machine, book: Book, id: OrderID, side: Side, price: Price, k: nat)
    requires id in book.ids && book.ids[id] == Shelf(side, price) && m.HasLevel(price)
    requires k < |book.Queue(side)| && FindLast(book.Queue(side), id, price) == k
    ensures Cancel(m, book, id) == TakeOut(book, id, side, k)
  {
  }

  /** Taking out an order that has just come to rest. */
  lemma TakeOutRested(book: Book, o: IncomingOrder, left: Quantity, k: nat)
    requires var e := EntryOf(o, left);
             var q := book.Queue(o.side);
             k <= |q| && Insert(q, e) == InsertAt(q, k, e)
    ensures TakeOut(Rest(book, o, left), o.id, o.side, k)
            == Step(book.(ids := book.ids - {o.id}), AddReport(NO_EVENT, CancelReport(EntryOf(o, left))))
  {
    RemoveInserted(book.Queue(o.side), k, EntryOf(o, left));
    assert book.ids[o.id := Shelf(o.side, o.price)] - {o.id} == book.ids - {o.id};
    hide Insert, RemoveAt, AddReport, CancelReport;
  }

  /**
   A cancel takes out the order that came to rest last under the id, even if the
   id was in use: the queues are as they were, and the id is mapped no more.
   */
  lemma RestCancelRoundTrip(m: Machine, book: Book, o: IncomingOrder, left: Quantity)
    requires Sorted(o.side, book.Queue(o.side)) && m.HasLevel(o.price)
    ensures Cancel(m, Rest(book, o, left), o.id)
            == Step(book.(ids := book.ids - {o.id}), AddReport(NO_EVENT, CancelReport(EntryOf(o, left))))
  {
    var k := InsertedIsLast(book.Queue(o.side), EntryOf(o, left));
    TakeOutRested(book, o, left, k);
    hide Insert, TakeOut, Cancel, FindLast, AddReport, CancelReport;
    CancelShelved(m, Rest(book, o, left), o.id, o.side, o.price, k);
  }

  lemma UnfilledMatch(m: Machine, book: Book, o: IncomingOrder)
    requires Inv(book) && m.Accepts(o) && MatchIn(book, o).left == o.quantity
    ensures MatchIn(book, o).event == NO_EVENT && Swept(book, o) == book
  {
    hide Match;
    UnfilledMatchKeepsQueue(o, o.quantity, book.Queue(o.side.Opposite()), NO_EVENT);
    assert ReportedIds([]) == {};
    assert book.ids - {} == book.ids;
  }

  lemma RestsOnLevel(m: Machine, book: Book, o: IncomingOrder)
    requires Rests(m, book, o) && m.HasLevel(o.price)
    ensures var r := MatchIn(book, o);
            Process(m, book, o)
            == Step(Rest(Swept(book, o), o, r.left), AddReport(r.event, OwnReport(o, Resting, r.left)))
  {
    hide MatchIn, Swept, Rest;
  }

  /** A Limit order that finds no counterpart and is cancelled leaves no trace in the queues. */
  lemma ProcessCancelRoundTrip(m: Machine, book: Book, o: IncomingOrder)
    requires Inv(book) && Rests(m, book, o) && m.HasLevel(o.price) && MatchIn(book, o).left == o.quantity
    ensures Swept(book, o) == book
    ensures Process(m, book, o).event == MatchEvent([], [OwnReport(o, Resting, o.quantity)])
    ensures Cancel(m, Process(m, book, o).book, o.id)
            == Step(book.(ids := book.ids - {o.id}),
                    MatchEvent([], [Report(o.id, Cancelled, o.side, o.price, 0, o.quantity)]))
  {
    assert m.Accepts(o);
    hide *;
    UnfilledMatch(m, book, o);
    RestsOnLevel(m, book, o);
    QueueIsSorted(book, o.side);
    RestAndCancelReports(o);
    RestCancelRoundTrip(m, book, o, o.quantity);
  }

  lemma QueueIsSorted(book: Book, side: Side)
    requires Inv(book)
    ensures Sorted(side, book.Queue(side))
  {
  }

  lemma RestAndCancelReports(o: IncomingOrder)
    ensures AddReport(NO_EVENT, OwnReport(o, Resting, o.quantity))
            == MatchEvent([], [OwnReport(o, Resting, o.quantity)])
    ensures AddReport(NO_EVENT, CancelReport(EntryOf(o, o.quantity)))
            == MatchEvent([], [Report(o.id, Cancelled, o.side, o.price, 0, o.quantity)])
  {
  }

  // ---------- Distinct ids ----------

  lemma HasIdTail(q: seq<Entry>, id: OrderID)
    requires q != []
    ensures HasId(q, id) <==> q[0].id == id || HasId(q[1..], id)
  {
    if HasId(q[1..], id) {
      var i :| 0 <= i < |q[1..]| && q[1..][i].id == id;
      assert q[i + 1].id == id;
    }
    assert forall i :: 0 < i < |q| ==> q[i] == q[1..][i - 1];
  }

  /** The same order, whatever it has left. */
  predicate SameOrder(a: Entry, b: Entry) {
    a == b.(remaining := a.remaining, status := a.status)
  }

  /** Matching takes the first `n` orders out, with their reports, and leaves the others in their places. */
  ghost predicate Sweeps(q: seq<Entry>, m: Outcome, n: nat) {
    && n + |m.queue| == |q|
    && (forall j :: 0 <= j < |m.queue| ==> SameOrder(m.queue[j], q[n + j]))
    && ReportsFirst(m.event.reports, q, n)
  }

  lemma {:induction false} MatchSweeps(o: IncomingOrder, left: Quantity, q: seq<Entry>) returns (n: nat)
    ensures Sweeps(q, MatchOf(o, left, q), n)
    decreases |q|
  {
    n := 0;
    if !Done(o, left, q) {
      if left >= q[0].remaining {
        MatchPops(o, left, q);
        n := MatchSweeps(o, left - q[0].remaining, q[1..]);
        hide Match;
        ReportsShift(MatchOf(o, left - q[0].remaining, q[1..]).event.reports, q, n);
        n := n + 1;
      } else {
        MatchReduces(o, left, q);
      }
    }
  }

  /** Orders that were swept away are no longer mapped, and the others still are. */
  lemma SweepKeepsUnique(m: Machine, book: Book, side: Side, r: Outcome, n: nat)
    requires Unique(m, book) && Sweeps(book.Queue(side), r, n)
    ensures Unique(m, book.With(side, r.queue).(ids := book.ids - ReportedIds(r.event.reports)))
  {
    var q := book.Queue(side);
    var gone := ReportedIds(r.event.reports);
    forall id | id in gone
      ensures exists i :: 0 <= i < n && q[i].id == id
    {
      var k :| 0 <= k < |r.event.reports| && r.event.reports[k].orderId == id;
      assert q[k].id == id;
    }
    forall j | 0 <= j < |r.queue|
      ensures r.queue[j].id == q[n + j].id && r.queue[j].id !in gone
      ensures r.queue[j].side == q[n + j].side && r.queue[j].price == q[n + j].price
    {
      assert SameOrder(r.queue[j], q[n + j]);
    }
  }

  lemma MatchKeepsUnique(m: Machine, book: Book, o: IncomingOrder)
    requires Unique(m, book)
    ensures Unique(m, Swept(book, o))
  {
    var q := book.Queue(o.side.Opposite());
    var n := MatchSweeps(o, o.quantity, q);
    SweepKeepsUnique(m, book, o.side.Opposite(), MatchIn(book, o), n);
  }

  /** Mapping an id that no resting order has. */
  lemma MappedKeepsUnique(m: Machine, book: Book, o: IncomingOrder)
    requires Unique(m, book) && !IsResting(book, o.id)
    ensures Unique(m, Mapped(book, o))
  {
  }

  lemma RestKeepsUnique(m: Machine, book: Book, o: IncomingOrder, left: Quantity)
    requires Unique(m, book) && !IsResting(book, o.id) && m.HasLevel(o.price)
    requires Sorted(o.side, book.Queue(o.side))
    ensures Unique(m, Rest(book, o, left))
  {
    var q := book.Queue(o.side);
    var e := EntryOf(o, left);
    var k := InsertPlace(q, e);
    InsertedIsUnique(m, q, book.Queue(o.side.Opposite()), book.ids, Insert(q, e), k, e);
    hide Insert, DistinctIds, AllMapped, OnLevels;
  }

  /** `r` is `q` with `e` at place `k`, and the id of `e` is new. */
  lemma InsertedIsUnique(m: Machine, q: seq<Entry>, other: seq<Entry>, ids: map<OrderID, Place>, r: seq<Entry>, k: nat,
                         e: Entry)
    requires DistinctIds(q) && NoSharedId(q, other) && AllMapped(q, ids) && AllMapped(other, ids) && OnLevels(m, q)
    requires k <= |q| && r == InsertAt(q, k, e) && !HasId(q, e.id) && !HasId(other, e.id) && m.HasLevel(e.price)
    ensures DistinctIds(r) && NoSharedId(r, other) && OnLevels(m, r)
    ensures AllMapped(r, ids[e.id := Shelf(e.side, e.price)]) && AllMapped(other, ids[e.id := Shelf(e.side, e.price)])
  {
    assert forall i {:trigger r[i]} :: 0 <= i < |r| ==> r[i] == if i < k then q[i] else if i == k then e else q[i - 1];
    hide InsertAt;
  }

  /** Ids stay distinct as long as no order comes to rest under the id of a resting one. */
  lemma ProcessKeepsUnique(m: Machine, book: Book, o: IncomingOrder)
    requires Inv(book) && Unique(m, book) && HasFreshId(m, book, o)
    ensures Unique(Next(m, book, o), Process(m, book, o).book)
  {
    MatchKeepsUnique(m, book, o);
    if m.Accepts(o) {
      SweptIsDone(book, o);
    }
    if Misfiles(m, book, o) {
      MappedKeepsUnique(m, Swept(book, o), o);
      SameLevels(m, Next(m, book, o), Process(m, book, o).book);
    } else if Rests(m, book, o) {
      RestKeepsUnique(m, Swept(book, o), o, MatchIn(book, o).left);
    }
    hide Unique, Inv, MatchIn, Swept;
  }

  lemma SameLevels(m: Machine, m': Machine, book: Book)
    requires forall price :: m.HasLevel(price) <==> m'.HasLevel(price)
    ensures Unique(m, book) <==> Unique(m', book)
  {
  }

  lemma RemoveKeepsUnique(m: Machine, book: Book, side: Side, k: nat)
    requires Unique(m, book) && k < |book.Queue(side)|
    ensures Unique(m, TakeOut(book, book.Queue(side)[k].id, side, k).book)
  {
  }

  /** An id that is mapped to a lost order is not that of a resting one. */
  lemma LostIsNotResting(m: Machine, book: Book, id: OrderID)
    requires Unique(m, book) && IsLost(m, book, id)
    ensures !IsResting(book, id)
  {
  }

  lemma CancelKeepsUnique(m: Machine, book: Book, id: OrderID)
    requires Unique(m, book)
    ensures Unique(Released(m, book, id), Cancel(m, book, id).book)
  {
    if IsLost(m, book, id) {
      LostIsNotResting(m, book, id);
      FreedKeepsUnique(m, book, id);
      SameLevels(m, Released(m, book, id), Cancel(m, book, id).book);
    } else if id in book.ids && book.ids[id].Shelf? {
      var p := book.ids[id];
      var k := FindLast(book.Queue(p.side), id, p.price);
      if k < |book.Queue(p.side)| {
        RemoveKeepsUnique(m, book, p.side, k);
      }
    }
    hide Unique;
  }

  lemma FreedKeepsUnique(m: Machine, book: Book, id: OrderID)
    requires Unique(m, book) && !IsResting(book, id)
    ensures Unique(m, book.(ids := book.ids[id := Freed]))
  {
  }

  lemma FindLastIsPlace(q: seq<Entry>, n: nat)
    requires DistinctIds(q) && n < |q|
    ensures FindLast(q, q[n].id, q[n].price) == n
  {
  }

  /** While ids are distinct, the id of a resting order cancels exactly that order, wherever it is. */
  lemma CancelTakesPlace(m: Machine, book: Book, side: Side, n: nat)
    requires Inv(book) && Unique(m, book) && n < |book.Queue(side)|
    ensures Cancel(m, book, book.Queue(side)[n].id) == TakeOut(book, book.Queue(side)[n].id, side, n)
  {
    var e := book.Queue(side)[n];
    FindLastIsPlace(book.Queue(side), n);
    hide Cancel;
    CancelShelved(m, book, e.id, side, e.price, n);
  }
}
