/**
 * An order of shares (src/edu/virginia/jinsup/Order.java): its record, the
 * static counter that hands out order IDs, and the three comparators the
 * order book is sorted by. Prices are integer cents.
 */
module Orders {
  import opened JavaInt

  type OrderId = nat
  type AgentId = int

  /**
   * One order. `id`, `creator`, `isBuy` and `originalQuant` are final in the
   * source; `price` and `currentQuant` have setters.
   */
  datatype Order = Order(
    id: OrderId,
    creator: AgentId,
    price: int,
    originalQuant: int,
    currentQuant: int,
    isBuy: bool)
  {
    /** setQuant: only the current quantity changes. */
    function SetQuant(newQuant: int): (r: Order)
      ensures r.currentQuant == newQuant
      ensures r.id == id && r.creator == creator && r.price == price
      ensures r.originalQuant == originalQuant && r.isBuy == isBuy
    {
      this.(currentQuant := newQuant)
    }

    /** setPrice: only the price changes. */
    function SetPrice(newPrice: int): (r: Order)
      ensures r.price == newPrice
      ensures r.id == id && r.creator == creator && r.currentQuant == currentQuant
      ensures r.originalQuant == originalQuant && r.isBuy == isBuy
    {
      this.(price := newPrice)
    }
  }

  /**
   * The static `nextOrderID` counter. `issued` remembers every ID handed out
   * so far, so that freshness can be stated.
   */
  class OrderIdCounter {
    var nextOrderId: OrderId
    ghost var issued: set<OrderId>

    ghost predicate Valid()
      reads this
    {
      forall i :: i in issued ==> i < nextOrderId
    }

    constructor ()
      ensures Valid() && nextOrderId == 0 && issued == {}
    {
      nextOrderId := 0;
      issued := {};
    }

    /** The Order constructor: takes the next ID and starts with the full quantity. */
    method NewOrder(agentId: AgentId, price: int, originalQuant: int, isBuy: bool) returns (o: Order)
      requires Valid()
      modifies this
      ensures Valid()
      ensures o == Order(old(nextOrderId), agentId, price, originalQuant, originalQuant, isBuy)
      ensures o.currentQuant == o.originalQuant
      ensures nextOrderId == o.id + 1
      ensures forall i :: i in old(issued) ==> i < o.id
      ensures issued == old(issued) + {o.id}
    {
      o := Order(nextOrderId, agentId, price, originalQuant, originalQuant, isBuy);
      issued := issued + {nextOrderId};
      nextOrderId := nextOrderId + 1;
    }
  }

  /** The strict order that highestFirstComparator intends: higher price first, then older (smaller ID) first. */
  predicate HighBefore(a: Order, b: Order) {
    a.price > b.price || (a.price == b.price && a.id < b.id)
  }

  /** The strict order that lowestFirstComparator intends: lower price first, then older first. */
  predicate LowBefore(a: Order, b: Order) {
    a.price < b.price || (a.price == b.price && a.id < b.id)
  }

  /** The strict order of the instance method `compare`: higher price first, then newer (larger ID) first. */
  predicate NewestBefore(a: Order, b: Order) {
    a.price > b.price || (a.price == b.price && a.id > b.id)
  }

  /** Both differences the comparators compute fit in a Java `int`, in either direction. */
  predicate Comparable(a: Order, b: Order) {
    -MaxInt <= a.price - b.price <= MaxInt && -MaxInt <= a.id - b.id <= MaxInt
  }

  /** highestFirstComparator.compare: `o2.price - o1.price`, else `(int) (o1.id - o2.id)`. */
  function HighestFirst(o1: Order, o2: Order): (r: int)
    ensures InRange(r)
  {
    if o1.price != o2.price then Wrap(o2.price - o1.price) else Wrap(o1.id - o2.id)
  }

  /** lowestFirstComparator.compare: `o1.price - o2.price`, else `(int) (o1.id - o2.id)`. */
  function LowestFirst(o1: Order, o2: Order): (r: int)
    ensures InRange(r)
  {
    if o1.price != o2.price then Wrap(o1.price - o2.price) else Wrap(o1.id - o2.id)
  }

  /** The instance method compare: `o2.price - o1.price`, else `(int) (o2.id - o1.id)`. */
  function Compare(o1: Order, o2: Order): (r: int)
    ensures InRange(r)
  {
    if o1.price != o2.price then Wrap(o2.price - o1.price) else Wrap(o2.id - o1.id)
  }

  lemma HighestFirstAgrees(o1: Order, o2: Order)
    requires Comparable(o1, o2)
    ensures HighestFirst(o1, o2) < 0 <==> HighBefore(o1, o2)
    ensures HighestFirst(o1, o2) > 0 <==> HighBefore(o2, o1)
    ensures HighestFirst(o1, o2) == 0 <==> o1.price == o2.price && o1.id == o2.id
  {
    WrapInRange(o2.price - o1.price);
    WrapInRange(o1.id - o2.id);
  }

  lemma LowestFirstAgrees(o1: Order, o2: Order)
    requires Comparable(o1, o2)
    ensures LowestFirst(o1, o2) < 0 <==> LowBefore(o1, o2)
    ensures LowestFirst(o1, o2) > 0 <==> LowBefore(o2, o1)
    ensures LowestFirst(o1, o2) == 0 <==> o1.price == o2.price && o1.id == o2.id
  {
    WrapInRange(o1.price - o2.price);
    WrapInRange(o1.id - o2.id);
  }

  lemma CompareAgrees(o1: Order, o2: Order)
    requires Comparable(o1, o2)
    ensures Compare(o1, o2) < 0 <==> NewestBefore(o1, o2)
    ensures Compare(o1, o2) > 0 <==> NewestBefore(o2, o1)
    ensures Compare(o1, o2) == 0 <==> o1.price == o2.price && o1.id == o2.id
  {
    WrapInRange(o2.price - o1.price);
    WrapInRange(o2.id - o1.id);
  }

  /** With distinct IDs, the key order of highestFirstComparator is a strict total order. */
  lemma HighBeforeIsStrictTotal(a: Order, b: Order, c: Order)
    ensures !HighBefore(a, a)
    ensures HighBefore(a, b) ==> !HighBefore(b, a)
    ensures HighBefore(a, b) && HighBefore(b, c) ==> HighBefore(a, c)
    ensures a.id != b.id ==> HighBefore(a, b) || HighBefore(b, a)
  {
  }

  /** With distinct IDs, the key order of lowestFirstComparator is a strict total order. */
  lemma LowBeforeIsStrictTotal(a: Order, b: Order, c: Order)
    ensures !LowBefore(a, a)
    ensures LowBefore(a, b) ==> !LowBefore(b, a)
    ensures LowBefore(a, b) && LowBefore(b, c) ==> LowBefore(a, c)
    ensures a.id != b.id ==> LowBefore(a, b) || LowBefore(b, a)
  {
  }

  /** With distinct IDs, the key order of the instance `compare` is a strict total order. */
  lemma NewestBeforeIsStrictTotal(a: Order, b: Order, c: Order)
    ensures !NewestBefore(a, a)
    ensures NewestBefore(a, b) ==> !NewestBefore(b, a)
    ensures NewestBefore(a, b) && NewestBefore(b, c) ==> NewestBefore(a, c)
    ensures a.id != b.id ==> NewestBefore(a, b) || NewestBefore(b, a)
  {
  }

  /**
   * As written, the ID tie-break narrows a `long` difference to `int`: two
   * distinct orders at one price whose IDs differ by 2^32 compare as equal.
   */
  lemma HighestFirstIdCollision()
    ensures var a := Order(0, 0, 12700, 1, 1, true);
            var b := Order(0x1_0000_0000, 0, 12700, 1, 1, true);
            a.id != b.id && HighestFirst(a, b) == 0 && HighestFirst(b, a) == 0
  {
    var a := Order(0, 0, 12700, 1, 1, true);
    var b := Order(0x1_0000_0000, 0, 12700, 1, 1, true);
    assert Wrap(a.id - b.id) == 0;
    assert Wrap(b.id - a.id) == 0;
  }

  /** highestFirstComparator with the differences compared rather than subtracted (as `Long.compare` does). */
  function HighestFirstChecked(o1: Order, o2: Order): (r: int)
    ensures r < 0 <==> HighBefore(o1, o2)
    ensures r > 0 <==> HighBefore(o2, o1)
    ensures r == 0 <==> o1.price == o2.price && o1.id == o2.id
  {
    if o1.price != o2.price then (if o2.price > o1.price then 1 else -1)
    else if o1.id < o2.id then -1
    else if o1.id > o2.id then 1
    else 0
  }
}
