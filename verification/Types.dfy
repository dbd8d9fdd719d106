/**
 Values shared by the engines: orders as submitted, orders as they rest in the
 book, and the trades and reports that a call produces.
 */
module Types {

  type OrderID = nat
  type Price = int
  type Quantity = int
  type Timestamp = nat

  datatype Side = Buy | Sell {
    function Opposite(): Side {
      if Buy? then Sell else Buy
    }
  }

  datatype OrderType = Limit | Market | IOC | FOK

  datatype OrderStatus = New | Acked | Resting | PartiallyFilled | Filled | Cancelled

  datatype Trade = Trade(buyOrderId: OrderID, sellOrderId: OrderID, price: Price,
                         quantity: Quantity, timestamp: Timestamp)

  datatype Report = Report(orderId: OrderID, status: OrderStatus, side: Side, price: Price,
                           filledQuantity: Quantity, remainingQuantity: Quantity) {

    /** Nothing will happen to the order after this report. */
    predicate IsFinal() {
      status == Filled || status == Cancelled
    }
  }

  datatype IncomingOrder = IncomingOrder(id: OrderID, side: Side, otype: OrderType, price: Price,
                                         quantity: Quantity, timestamp: Timestamp)

  datatype MatchEvent = MatchEvent(trades: seq<Trade>, reports: seq<Report>)

  const NO_EVENT := MatchEvent([], [])

  /** The value of one order held by an engine. */
  datatype Entry = Entry(id: OrderID, side: Side, otype: OrderType, price: Price, quantity: Quantity,
                         remaining: Quantity, timestamp: Timestamp, status: OrderStatus) {

    /** Still able to trade: neither filled nor a cancelled tombstone. */
    predicate IsLive() {
      status != Filled && status != Cancelled
    }

    /** The status and the quantities an order resting in a book must have. */
    predicate IsSound() {
      0 < remaining <= quantity && (status == Resting || status == PartiallyFilled)
    }
  }

  /** The sequence without the element at place `k`. */
  function RemoveAt<T>(s: seq<T>, k: nat): (r: seq<T>)
    requires k < |s|
    ensures |r| == |s| - 1
    ensures forall j :: 0 <= j < |r| ==> r[j] == s[if j < k then j else j + 1]
  {
    seq(|s| - 1, j requires 0 <= j < |s| - 1 => s[if j < k then j else j + 1])
  }

  /** The sequence with `x` put at place `k`. */
  function InsertAt<T>(s: seq<T>, k: nat, x: T): (r: seq<T>)
    requires k <= |s|
    ensures |r| == |s| + 1 && r[k] == x
    ensures forall j {:trigger r[j]} :: 0 <= j < |r| && j != k ==> r[j] == s[if j < k then j else j - 1]
  {
    s[..k] + [x] + s[k..]
  }

  lemma InsertAtFront<T>(s: seq<T>, x: T)
    ensures InsertAt(s, 0, x) == [x] + s
  {
  }

  lemma InsertAtTail<T>(s: seq<T>, k: nat, x: T)
    requires 0 < k <= |s|
    ensures InsertAt(s, k, x) == [s[0]] + InsertAt(s[1..], k - 1, x)
  {
    assert s[..k] == [s[0]] + s[1..][..k - 1];
    assert s[k..] == s[1..][k - 1..];
  }

  lemma RemoveInserted<T>(s: seq<T>, k: nat, x: T)
    requires k <= |s|
    ensures RemoveAt(InsertAt(s, k, x), k) == s
  {
  }

  lemma RemoveAtMembers<T>(s: seq<T>, k: nat)
    requires k < |s| && forall i, j :: 0 <= i < j < |s| ==> s[i] != s[j]
    ensures forall x :: x in RemoveAt(s, k) <==> x in s && x != s[k]
  {
    forall j | 0 <= j < |s| && j != k
      ensures s[j] in RemoveAt(s, k)
    {
      assert RemoveAt(s, k)[if j < k then j else j - 1] == s[j];
    }
  }

  lemma RemoveAtConcat<T>(a: seq<T>, b: seq<T>, k: nat)
    requires k < |a| + |b|
    ensures RemoveAt(a + b, k) == if k < |a| then RemoveAt(a, k) + b else a + RemoveAt(b, k - |a|)
  {
  }

  function Min(a: int, b: int): int {
    if a <= b then a else b
  }
}
