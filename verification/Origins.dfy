/**
 Where the orders of a book come from: each is what is left of an order that was
 submitted, with all its other fields as they were.
 */
module Origins {
  import opened Types
  import opened BookSpec
  import opened MatchingLaws
  import opened BookLaws
  import opened Runs

  predicate IsRestOf(e: Entry, o: IncomingOrder) {
    && e.id == o.id && e.side == o.side && e.otype == o.otype && e.price == o.price && e.quantity == o.quantity
    && e.timestamp == o.timestamp
  }

  ghost predicate StemsFrom(e: Entry, orders: seq<IncomingOrder>) {
    exists j :: 0 <= j < |orders| && IsRestOf(e, orders[j])
  }

  ghost predicate AllStemFrom(q: seq<Entry>, orders: seq<IncomingOrder>) {
    forall i :: 0 <= i < |q| ==> StemsFrom(q[i], orders)
  }

  /** Of the resting orders and the lost ones. */
  ghost predicate BookStemsFrom(m: Machine, book: Book, orders: seq<IncomingOrder>) {
    AllStemFrom(book.bids, orders) && AllStemFrom(book.asks, orders) && AllStemFrom(m.Lost(), orders)
  }

  lemma StillStems(e: Entry, orders: seq<IncomingOrder>, o: IncomingOrder)
    ensures StemsFrom(e, orders) || IsRestOf(e, o) ==> StemsFrom(e, orders + [o])
  {
    var more := orders + [o];
    if StemsFrom(e, orders) {
      var j :| 0 <= j < |orders| && IsRestOf(e, orders[j]);
      assert IsRestOf(e, more[j]);
    } else if IsRestOf(e, o) {
      assert IsRestOf(e, more[|orders|]);
    }
  }

  lemma AllStillStem(q: seq<Entry>, orders: seq<IncomingOrder>, o: IncomingOrder)
    requires AllStemFrom(q, orders)
    ensures AllStemFrom(q, orders + [o])
  {
    forall i | 0 <= i < |q|
      ensures StemsFrom(q[i], orders + [o])
    {
      StillStems(q[i], orders, o);
    }
  }

  lemma SameOrderStems(a: Entry, b: Entry, orders: seq<IncomingOrder>)
    requires SameOrder(a, b) && StemsFrom(b, orders)
    ensures StemsFrom(a, orders)
  {
    var j :| 0 <= j < |orders| && IsRestOf(b, orders[j]);
    assert IsRestOf(a, orders[j]);
  }

  /** Matching only takes orders away, or something of what they have left. */
  lemma MatchKeepsOrigins(o: IncomingOrder, left: Quantity, q: seq<Entry>, orders: seq<IncomingOrder>)
    requires AllStemFrom(q, orders)
    ensures AllStemFrom(MatchOf(o, left, q).queue, orders)
  {
    var r := MatchOf(o, left, q);
    var n := MatchSweeps(o, left, q);
    forall i | 0 <= i < |r.queue|
      ensures StemsFrom(r.queue[i], orders)
    {
      SameOrderStems(r.queue[i], q[n + i], orders);
    }
  }

  lemma {:induction false} InsertKeepsOrigins(q: seq<Entry>, e: Entry, orders: seq<IncomingOrder>)
    requires AllStemFrom(q, orders) && StemsFrom(e, orders)
    ensures AllStemFrom(BookSpec.Insert(q, e), orders)
  {
    if q != [] && !Better(e.side, e.price, q[0].price) {
      InsertKeepsOrigins(q[1..], e, orders);
    }
  }

  lemma AppendKeepsOrigins(q: seq<Entry>, e: Entry, orders: seq<IncomingOrder>)
    requires AllStemFrom(q, orders) && StemsFrom(e, orders)
    ensures AllStemFrom(q + [e], orders)
  {
  }

  lemma ProcessKeepsOrigins(m: Machine, book: Book, o: IncomingOrder, orders: seq<IncomingOrder>)
    requires BookStemsFrom(m, book, orders)
    ensures BookStemsFrom(Next(m, book, o), Process(m, book, o).book, orders + [o])
  {
    var left := MatchIn(book, o).left;
    AllStillStem(book.bids, orders, o);
    AllStillStem(book.asks, orders, o);
    AllStillStem(m.Lost(), orders, o);
    StillStems(EntryOf(o, left), orders, o);
    StillStems(StrayOf(o, left), orders, o);
    assert IsRestOf(EntryOf(o, left), o) && IsRestOf(StrayOf(o, left), o);
    hide StemsFrom, AllStemFrom, Match, BookSpec.Insert, IsRestOf, EntryOf, StrayOf, ReportedIds;
    MatchKeepsOrigins(o, o.quantity, book.Queue(o.side.Opposite()), orders + [o]);
    InsertKeepsOrigins(book.Queue(o.side), EntryOf(o, left), orders + [o]);
    AppendKeepsOrigins(m.Lost(), StrayOf(o, left), orders + [o]);
  }

  lemma CancelKeepsOrigins(m: Machine, book: Book, id: OrderID, orders: seq<IncomingOrder>)
    requires BookStemsFrom(m, book, orders)
    ensures BookStemsFrom(Released(m, book, id), Cancel(m, book, id).book, orders)
  {
    hide StemsFrom;
  }

  /** The orders that a run submits. */
  function SubmittedBy(ops: seq<Op>): seq<IncomingOrder> {
    if ops == [] then []
    else (if ops[0].Submit? then [ops[0].order] else []) + SubmittedBy(ops[1..])
  }

  /** After every run each order of the book, resting or lost, is what is left of a submitted one. */
  lemma {:induction false} RunKeepsOrigins(m: Machine, book: Book, ops: seq<Op>, orders: seq<IncomingOrder>)
    requires BookStemsFrom(m, book, orders)
    ensures var r := RunOf(m, book, ops);
            BookStemsFrom(r.machine, r.book, orders + SubmittedBy(ops))
    decreases |ops|
  {
    hide BookStemsFrom, Process, Next, Cancel, Released;
    if ops == [] {
      assert orders + [] == orders;
    } else {
      var before := if ops[0].Submit? then orders + [ops[0].order] else orders;
      match ops[0] {
        case Submit(o) => ProcessKeepsOrigins(m, book, o, orders);
        case CancelId(id) => CancelKeepsOrigins(m, book, id, orders);
      }
      RunKeepsOrigins(After(m, book, ops[0]), StepOf(m, book, ops[0]).book, ops[1..], before);
      assert before + SubmittedBy(ops[1..]) == orders + SubmittedBy(ops);
    }
  }
}
