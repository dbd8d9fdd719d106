/**
 Price-time priority as a pure state machine. A book is two queues of resting
 orders, each flattened best price first and arrival order within a price, and
 the id map by which a cancel finds an order. Both engines are proved to refine
 this machine.
 */
module BookSpec {
  import opened Types

  /**
   Which order an id is mapped to: the last one with that id at this price of this
   side; or one whose slot has been given back while the map still points at it.
   */
  datatype Place = Shelf(side: Side, price: Price) | Freed

  datatype Book = Book(bids: seq<Entry>, asks: seq<Entry>, ids: map<OrderID, Place>) {

    /** The queue of the given side. */
    function Queue(side: Side): seq<Entry> {
      if side.Buy? then bids else asks
    }

    function With(side: Side, q: seq<Entry>): Book {
      if side.Buy? then this.(bids := q) else this.(asks := q)
    }

    function Size(): nat {
      |bids| + |asks|
    }
  }

  const EMPTY_BOOK := Book([], [], map[])

  datatype Step = Step(book: Book, event: MatchEvent)

  // ---------- Priority ----------

  /** `a` is strictly better than `b` for the orders resting on `side`. */
  predicate Better(side: Side, a: Price, b: Price) {
    if side.Buy? then a > b else a < b
  }

  /** The incoming order accepts to trade at the resting price `p`. */
  predicate Crosses(o: IncomingOrder, p: Price) {
    o.otype.Market? || (if o.side.Buy? then o.price >= p else o.price <= p)
  }

  // ---------- Matching ----------

  function TradeWith(o: IncomingOrder, e: Entry, fill: Quantity): Trade {
    if o.side.Buy?
    then Trade(o.id, e.id, e.price, fill, o.timestamp)
    else Trade(e.id, o.id, e.price, fill, o.timestamp)
  }

  function FilledReport(e: Entry): Report {
    Report(e.id, Filled, e.side, e.price, e.quantity, 0)
  }

  function Reduced(e: Entry, fill: Quantity): Entry {
    e.(remaining := e.remaining - fill, status := PartiallyFilled)
  }

  function AddTrade(ev: MatchEvent, t: Trade): MatchEvent {
    ev.(trades := ev.trades + [t])
  }

  function AddReport(ev: MatchEvent, r: Report): MatchEvent {
    ev.(reports := ev.reports + [r])
  }

  datatype Outcome = Outcome(queue: seq<Entry>, left: Quantity, event: MatchEvent)

  /** Matching is over: nothing left to fill, nobody to fill it, or the best price is refused. */
  predicate Done(o: IncomingOrder, left: Quantity, q: seq<Entry>) {
    left <= 0 || q == [] || !Crosses(o, q[0].price)
  }

  /** One fill against the head of the opposite queue. */
  function Fill(o: IncomingOrder, left: Quantity, q: seq<Entry>, ev: MatchEvent): Outcome
    requires q != []
  {
    var fill := Min(left, q[0].remaining);
    var ev1 := AddTrade(ev, TradeWith(o, q[0], fill));
    if fill == q[0].remaining
    then Outcome(q[1..], left - fill, AddReport(ev1, FilledReport(q[0])))
    else Outcome([Reduced(q[0], fill)] + q[1..], left - fill, ev1)
  }

  /** Fills from the head of the opposite queue until done, with the event so far in `ev`. */
  function Match(o: IncomingOrder, left: Quantity, q: seq<Entry>, ev: MatchEvent): Outcome
    decreases |q|, left
  {
    if Done(o, left, q) then Outcome(q, left, ev)
    else
      var f := Fill(o, left, q, ev);
      if |f.queue| < |q| then Match(o, f.left, f.queue, f.event) else f
  }

  // ---------- Resting ----------

  function EntryOf(o: IncomingOrder, left: Quantity): Entry {
    Entry(o.id, o.side, o.otype, o.price, o.quantity, left, o.timestamp, Resting)
  }

  /** Puts `e` behind every order of `q` that is at least as good. */
  function Insert(q: seq<Entry>, e: Entry): seq<Entry> {
    if q == [] || Better(e.side, e.price, q[0].price) then [e] + q
    else [q[0]] + Insert(q[1..], e)
  }

  // ---------- Quantities ----------

  /** The remaining quantity of a queue of orders. */
  function Total(q: seq<Entry>): Quantity {
    if q == [] then 0 else q[0].remaining + Total(q[1..])
  }

  /** The remaining quantity of the orders at one price. */
  function TotalAt(q: seq<Entry>, price: Price): Quantity {
    if q == [] then 0
    else (if q[0].price == price then q[0].remaining else 0) + TotalAt(q[1..], price)
  }

  /** The best price of a queue, or 0 if it is empty. */
  function BestPrice(q: seq<Entry>): Price {
    if q == [] then 0 else q[0].price
  }

  // ---------- Operations ----------

  function OwnReport(o: IncomingOrder, status: OrderStatus, left: Quantity): Report {
    Report(o.id, status, o.side, o.price, o.quantity - left, left)
  }

  function RejectReport(o: IncomingOrder): Report {
    Report(o.id, Cancelled, o.side, o.price, 0, o.quantity)
  }

  predicate WellFormed(o: IncomingOrder) {
    o.quantity > 0 && o.id != 0
  }

  /** What `validate_order` of the fast engine accepts. */
  predicate FastAccepts(o: IncomingOrder) {
    WellFormed(o) && (o.otype.Limit? ==> o.price > 0)
  }

  function MatchIn(book: Book, o: IncomingOrder): Outcome {
    Match(o, o.quantity, book.Queue(o.side.Opposite()), NO_EVENT)
  }

  function ReportedIds(reports: seq<Report>): set<OrderID> {
    set r | r in reports :: r.orderId
  }

  /**
   The book once the incoming order has matched and before it may rest. The id of
   every filled order leaves the map, whichever order it is mapped to.
   */
  function Swept(book: Book, o: IncomingOrder): Book {
    var m := MatchIn(book, o);
    book.With(o.side.Opposite(), m.queue).(ids := book.ids - ReportedIds(m.event.reports))
  }

  /** The id is mapped to this order, even if it was in use. */
  function Mapped(book: Book, o: IncomingOrder): Book {
    book.(ids := book.ids[o.id := Shelf(o.side, o.price)])
  }

  function Rest(book: Book, o: IncomingOrder, left: Quantity): Book {
    Mapped(book.With(o.side, Insert(book.Queue(o.side), EntryOf(o, left))), o)
  }

  /** Settles what is left of an accepted order after matching; only a Limit order may rest. */
  function Settle(book: Book, o: IncomingOrder, room: bool): Step {
    var m := MatchIn(book, o);
    if m.left == 0 then
      Step(Swept(book, o), AddReport(m.event, OwnReport(o, Filled, 0)))
    else if o.otype.Limit? && room then
      Step(Rest(Swept(book, o), o, m.left), AddReport(m.event, OwnReport(o, Resting, m.left)))
    else
      Step(Swept(book, o), AddReport(m.event, OwnReport(o, Cancelled, m.left)))
  }

  function Reject(book: Book, o: IncomingOrder): Step {
    Step(book, AddReport(NO_EVENT, RejectReport(o)))
  }

  /**
   The two engines as the specification sees them. The fast one refuses
   non-positive Limit prices, holds at most `capacity` orders and has levels
   for the prices below `levels`; an order beyond them is lost: it takes up room
   and its id is mapped to it, but it is in no queue. The reference has no such
   limits. `lost` is in the order of arrival.
   */
  datatype Machine = Fast(capacity: nat, levels: nat, lost: seq<Entry>) | Reference {

    predicate Accepts(o: IncomingOrder) {
      if Fast? then FastAccepts(o) else WellFormed(o)
    }

    predicate HasRoom(book: Book) {
      Fast? ==> book.Size() + |lost| < capacity
    }

    predicate HasLevel(price: Price) {
      Fast? ==> price < levels
    }

    /** The lost orders. */
    function Lost(): seq<Entry> {
      if Fast? then lost else []
    }
  }

  /** The order is accepted, leaves something after matching, and is reported Resting. */
  predicate Rests(m: Machine, book: Book, o: IncomingOrder) {
    m.Accepts(o) && o.otype.Limit? && MatchIn(book, o).left != 0 && m.HasRoom(Swept(book, o))
  }

  /** The order is reported Resting although no level can hold it. */
  predicate Misfiles(m: Machine, book: Book, o: IncomingOrder) {
    Rests(m, book, o) && !m.HasLevel(o.price)
  }

  /** One order on either engine; a misfiled order is mapped but in no queue. */
  function Process(m: Machine, book: Book, o: IncomingOrder): Step {
    if !m.Accepts(o) then Reject(book, o)
    else
      var s := Settle(book, o, m.HasRoom(Swept(book, o)));
      if Misfiles(m, book, o) then s.(book := Mapped(Swept(book, o), o)) else s
  }

  /** The value of an order that no level could hold. */
  function StrayOf(o: IncomingOrder, left: Quantity): Entry {
    EntryOf(o, left).(status := Cancelled)
  }

  /** The engine after one order. */
  function Next(m: Machine, book: Book, o: IncomingOrder): Machine {
    if Misfiles(m, book, o) then m.(lost := m.lost + [StrayOf(o, MatchIn(book, o).left)]) else m
  }

  predicate Matches(e: Entry, id: OrderID, price: Price) {
    e.id == id && e.price == price
  }

  /** Position of the last order with this id and price, or the length of the queue. */
  function FindLast(q: seq<Entry>, id: OrderID, price: Price): (k: nat)
    ensures k <= |q|
    ensures k < |q| ==> Matches(q[k], id, price)
    ensures forall i :: 0 <= i < |q| && (k < i || k == |q|) ==> !Matches(q[i], id, price)
  {
    if q == [] then 0
    else
      var last := |q| - 1;
      if Matches(q[last], id, price) then last
      else
        var k := FindLast(q[..last], id, price);
        if k == last then |q| else k
  }

  function CancelReport(e: Entry): Report {
    Report(e.id, Cancelled, e.side, e.price, e.quantity - e.remaining, e.remaining)
  }

  /** The id is mapped to a lost order. */
  predicate IsLost(m: Machine, book: Book, id: OrderID) {
    && id in book.ids && book.ids[id].Shelf? && !m.HasLevel(book.ids[id].price)
    && FindLast(m.Lost(), id, book.ids[id].price) < |m.Lost()|
  }

  /** Place of the lost order that the id is mapped to. */
  function LostPlace(m: Machine, book: Book, id: OrderID): (k: nat)
    requires IsLost(m, book, id)
    ensures k < |m.Lost()| && m.Lost()[k].id == id
  {
    FindLast(m.Lost(), id, book.ids[id].price)
  }

  /** Cancelling an order in a queue: it leaves the queue and the map. */
  function TakeOut(book: Book, id: OrderID, side: Side, k: nat): Step
    requires k < |book.Queue(side)|
  {
    Step(book.With(side, RemoveAt(book.Queue(side), k)).(ids := book.ids - {id}),
         AddReport(NO_EVENT, CancelReport(book.Queue(side)[k])))
  }

  /** Cancelling the last order of the id at a price of a side, if there is one. */
  function TakeLast(book: Book, id: OrderID, side: Side, price: Price): Step {
    var k := FindLast(book.Queue(side), id, price);
    if k < |book.Queue(side)| then TakeOut(book, id, side, k) else Step(book, NO_EVENT)
  }

  /** Cancelling a lost order: it is reported and gone, but its id stays mapped. */
  function FreeLost(book: Book, id: OrderID, e: Entry): Step {
    Step(book.(ids := book.ids[id := Freed]), AddReport(NO_EVENT, CancelReport(e)))
  }

  /**
   Cancelling by id. What happens when the id of a lost order is cancelled a second
   time is not specified: see `Fits`.
   */
  function Cancel(m: Machine, book: Book, id: OrderID): Step {
    if id !in book.ids || book.ids[id].Freed? then Step(book, NO_EVENT)
    else if IsLost(m, book, id) then FreeLost(book, id, m.Lost()[LostPlace(m, book, id)])
    else TakeLast(book, id, book.ids[id].side, book.ids[id].price)
  }

  /** The engine after one cancel. */
  function Released(m: Machine, book: Book, id: OrderID): Machine {
    if IsLost(m, book, id) then m.(lost := RemoveAt(m.lost, LostPlace(m, book, id))) else m
  }

  /** The id is not that of a lost order that has been cancelled. */
  predicate Cancellable(book: Book, id: OrderID) {
    id in book.ids ==> book.ids[id].Shelf?
  }

  // ---------- The invariant of a book ----------

  ghost predicate HasId(q: seq<Entry>, id: OrderID) {
    exists i :: 0 <= i < |q| && q[i].id == id
  }

  ghost predicate DistinctIds(q: seq<Entry>) {
    forall i, j :: 0 <= i < j < |q| ==> q[i].id != q[j].id
  }

  /** Best price first. */
  ghost predicate Sorted(side: Side, q: seq<Entry>) {
    forall i, j :: 0 <= i < j < |q| ==> !Better(side, q[j].price, q[i].price)
  }

  ghost predicate SoundQueue(side: Side, q: seq<Entry>) {
    && (forall i :: 0 <= i < |q| ==> q[i].side == side && q[i].IsSound())
    && Sorted(side, q)
  }

  ghost predicate Uncrossed(bids: seq<Entry>, asks: seq<Entry>) {
    forall i, j :: 0 <= i < |bids| && 0 <= j < |asks| ==> bids[i].price < asks[j].price
  }

  /** Sound and sorted queues that do not cross, whatever the ids. */
  ghost predicate Inv(book: Book) {
    && SoundQueue(Buy, book.bids)
    && SoundQueue(Sell, book.asks)
    && Uncrossed(book.bids, book.asks)
  }

  ghost predicate NoSharedId(bids: seq<Entry>, asks: seq<Entry>) {
    forall i, j :: 0 <= i < |bids| && 0 <= j < |asks| ==> bids[i].id != asks[j].id
  }

  /** Every order of the queue is the one its id is mapped to. */
  ghost predicate AllMapped(q: seq<Entry>, ids: map<OrderID, Place>) {
    forall i :: 0 <= i < |q| ==> q[i].id in ids && ids[q[i].id] == Shelf(q[i].side, q[i].price)
  }

  ghost predicate OnLevels(m: Machine, q: seq<Entry>) {
    forall i :: 0 <= i < |q| ==> m.HasLevel(q[i].price)
  }

  /** No two resting orders share an id, each has a level, and each can be cancelled by its id. */
  ghost predicate Unique(m: Machine, book: Book) {
    && DistinctIds(book.bids) && DistinctIds(book.asks) && NoSharedId(book.bids, book.asks)
    && AllMapped(book.bids, book.ids) && AllMapped(book.asks, book.ids)
    && OnLevels(m, book.bids) && OnLevels(m, book.asks)
  }

  ghost predicate IsResting(book: Book, id: OrderID) {
    HasId(book.bids, id) || HasId(book.asks, id)
  }

  /** An order that is reported Resting does not take the id of a resting one. */
  ghost predicate HasFreshId(m: Machine, book: Book, o: IncomingOrder) {
    Rests(m, book, o) ==> !IsResting(Swept(book, o), o.id)
  }
}
