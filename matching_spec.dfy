/**
 * What the matching engine (src/edu/virginia/jinsup/MatchingEngine.java)
 * does to its books, as functions on values. The `MatchingEngine` class in
 * module `Engine` is proved to change its fields exactly as these functions
 * say; the lemmas here state what the engine promises about them.
 *
 * Logging (the CSV buffer) and the calls into the depth chart are side
 * effects that change nothing here and are left out.
 */
module Matching {
  import opened Optional
  import opened Orders
  import opened OrderBook

  /** How many orders topBuyOrders and topSellOrders keep. */
  const TopCount: nat := 10

  /**
   * The order-handling fields: the order objects, the two `TreeSet`s (both
   * built with highestFirstComparator) and the per-agent `ArrayList`s.
   */
  datatype Book = Book(
    orders: Registry,
    buyOrders: seq<OrderId>,
    sellOrders: seq<OrderId>,
    orderMap: map<AgentId, seq<OrderId>>)

  /** One `setLastOrderTraded(true, volume)` call on the agent with this ID. */
  datatype Fill = Fill(agent: AgentId, volume: int)

  /** The book's invariant: sound sides and lists. */
  predicate Valid(b: Book) {
    SidesValid(b) && ListsValid(b)
  }

  /** Each side is a sorted set of registered orders of its own direction. */
  predicate SidesValid(b: Book) {
    && KeyedById(b.orders)
    && Known(b.orders, b.buyOrders)
    && Known(b.orders, b.sellOrders)
    && Sorted(HighFirst, b.orders, b.buyOrders)
    && Sorted(HighFirst, b.orders, b.sellOrders)
    && (forall x :: x in b.buyOrders ==> b.orders[x].isBuy)
    && (forall x :: x in b.sellOrders ==> !b.orders[x].isBuy)
  }

  /**
   * Every order's creator has a list; each list holds its own agent's orders
   * once each; an order is on a side exactly when it is in its creator's list.
   */
  predicate ListsValid(b: Book) {
    && (forall x :: x in b.orders ==> b.orders[x].creator in b.orderMap)
    && (forall a :: a in b.orderMap ==> NoDup(b.orderMap[a]))
    && (forall a, x :: a in b.orderMap && x in b.orderMap[a] ==> x in b.orders && b.orders[x].creator == a)
    && (forall x :: x in b.orders ==>
          (x in b.buyOrders || x in b.sellOrders <==> x in b.orderMap[b.orders[x].creator]))
  }

  /** The side an order of this direction rests on. */
  function Side(b: Book, buy: bool): seq<OrderId> {
    if buy then b.buyOrders else b.sellOrders
  }

  /** The creator's list, empty when `orderMap` has no entry for it. */
  function ListOf(b: Book, agent: AgentId): seq<OrderId> {
    if agent in b.orderMap then b.orderMap[agent] else []
  }

  /** Two registries hold the same orders, which differ at most in their current quantity. */
  predicate OnlyQuantities(reg: Registry, reg': Registry) {
    && reg'.Keys == reg.Keys
    && (forall x :: x in reg ==>
          && reg'[x].id == reg[x].id && reg'[x].creator == reg[x].creator
          && reg'[x].price == reg[x].price && reg'[x].originalQuant == reg[x].originalQuant
          && reg'[x].isBuy == reg[x].isBuy)
  }

  /** A sorted collection stays sorted when no price or ID of its orders changes. */
  lemma SortedStable(key: Key, reg: Registry, reg': Registry, s: seq<OrderId>)
    requires Known(reg, s) && Known(reg', s) && Sorted(key, reg, s)
    requires forall x :: x in s ==> reg'[x].price == reg[x].price && reg'[x].id == reg[x].id
    ensures Sorted(key, reg', s)
  {
    forall i, j | 0 <= i < j < |s|
      ensures Before(key, reg'[s[i]], reg'[s[j]])
    {
      assert Before(key, reg[s[i]], reg[s[j]]);
    }
  }

  /** createOrder's bookkeeping: the order joins its side and the end of its creator's list. */
  function Place(b: Book, o: Order): (r: Book)
    requires Known(b.orders, b.buyOrders) && Known(b.orders, b.sellOrders)
  {
    var reg := b.orders[o.id := o];
    Book(reg,
      if o.isBuy then Insert(HighFirst, reg, b.buyOrders, o.id) else b.buyOrders,
      if o.isBuy then b.sellOrders else Insert(HighFirst, reg, b.sellOrders, o.id),
      b.orderMap[o.creator := ListOf(b, o.creator) + [o.id]])
  }

  /**
   * A fresh order joins exactly one side (the buy side iff it is a buy
   * order) and the end of its creator's list, which is created if absent;
   * no other order, side membership or list changes.
   */
  lemma PlaceKeepsValid(b: Book, o: Order)
    requires Valid(b) && o.id !in b.orders
    ensures Valid(Place(b, o))
    ensures Place(b, o).orders == b.orders[o.id := o]
    ensures o.id in Side(Place(b, o), o.isBuy) && o.id !in Side(Place(b, o), !o.isBuy)
    ensures Place(b, o).orderMap[o.creator] == ListOf(b, o.creator) + [o.id]
    ensures forall a :: a in b.orderMap && a != o.creator ==> Place(b, o).orderMap[a] == b.orderMap[a]
    ensures forall x :: x in b.orders ==>
              (x in Place(b, o).buyOrders <==> x in b.buyOrders) &&
              (x in Place(b, o).sellOrders <==> x in b.sellOrders)
  {
    PlaceSides(b, o);
    PlaceLists(b, o);
  }

  lemma PlaceSides(b: Book, o: Order)
    requires SidesValid(b) && o.id !in b.orders
    ensures SidesValid(Place(b, o))
    ensures forall x :: x in Place(b, o).buyOrders <==> x in b.buyOrders || (o.isBuy && x == o.id)
    ensures forall x :: x in Place(b, o).sellOrders <==> x in b.sellOrders || (!o.isBuy && x == o.id)
  {
    var r := Place(b, o);
    var reg := r.orders;
    assert o.id !in b.buyOrders && o.id !in b.sellOrders;
    SortedStable(HighFirst, b.orders, reg, b.buyOrders);
    SortedStable(HighFirst, b.orders, reg, b.sellOrders);
    if o.isBuy {
      InsertSorted(HighFirst, reg, b.buyOrders, o.id);
    } else {
      InsertSorted(HighFirst, reg, b.sellOrders, o.id);
    }
  }

  lemma PlaceLists(b: Book, o: Order)
    requires ListsValid(b) && o.id !in b.orders
    requires forall x :: x in b.buyOrders || x in b.sellOrders ==> x in b.orders
    requires forall x :: x in Place(b, o).buyOrders <==> x in b.buyOrders || (o.isBuy && x == o.id)
    requires forall x :: x in Place(b, o).sellOrders <==> x in b.sellOrders || (!o.isBuy && x == o.id)
    ensures ListsValid(Place(b, o))
  {
    var r := Place(b, o);
    var l := ListOf(b, o.creator);
    assert o.id !in l;
    assert NoDup(l + [o.id]);
    forall x | x in r.orders
      ensures x in r.buyOrders || x in r.sellOrders <==> x in r.orderMap[r.orders[x].creator]
    {
      if x != o.id {
        var a := b.orders[x].creator;
        assert r.orders[x] == b.orders[x];
        if a == o.creator {
          assert r.orderMap[a] == l + [o.id];
        }
      }
    }
  }

  /** cancelOrder: removed from both sides and from its creator's list; its quantity becomes 0. */
  function Cancel(b: Book, id: OrderId): Book
    requires id in b.orders && b.orders[id].creator in b.orderMap
  {
    var o := b.orders[id];
    Book(b.orders[id := o.SetQuant(0)],
      RemoveFirst(b.buyOrders, id),
      RemoveFirst(b.sellOrders, id),
      b.orderMap[o.creator := RemoveFirst(b.orderMap[o.creator], id)])
  }

  /** What the pairwise trade does to a filled order: it leaves its own side and its creator's list, with quantity 0. */
  function Retire(b: Book, id: OrderId): Book
    requires id in b.orders && b.orders[id].creator in b.orderMap
  {
    var o := b.orders[id];
    Book(b.orders[id := o.SetQuant(0)],
      if o.isBuy then RemoveFirst(b.buyOrders, id) else b.buyOrders,
      if o.isBuy then b.sellOrders else RemoveFirst(b.sellOrders, id),
      b.orderMap[o.creator := RemoveFirst(b.orderMap[o.creator], id)])
  }

  /** `setQuant` on an order the engine holds. */
  function SetQuantOf(b: Book, id: OrderId, q: int): Book
    requires id in b.orders
  {
    b.(orders := b.orders[id := b.orders[id].SetQuant(q)])
  }

  /**
   * Cancelling takes the order off both sides and out of its creator's list
   * and zeroes its quantity; every other order keeps its fields, its side
   * membership and its list membership.
   */
  lemma CancelKeepsValid(b: Book, id: OrderId)
    requires Valid(b) && id in b.orders
    ensures Valid(Cancel(b, id))
    ensures Cancel(b, id).orders[id].currentQuant == 0
    ensures id !in Cancel(b, id).buyOrders && id !in Cancel(b, id).sellOrders
    ensures id !in Cancel(b, id).orderMap[b.orders[id].creator]
    ensures forall x :: x in b.orders && x != id ==> Cancel(b, id).orders[x] == b.orders[x]
    ensures forall x :: x != id ==>
              (x in Cancel(b, id).buyOrders <==> x in b.buyOrders) &&
              (x in Cancel(b, id).sellOrders <==> x in b.sellOrders)
    ensures forall a, x :: a in b.orderMap && x != id ==>
              (x in Cancel(b, id).orderMap[a] <==> x in b.orderMap[a])
  {
    CancelSides(b, id);
    CancelLists(b, id);
  }

  lemma CancelSides(b: Book, id: OrderId)
    requires SidesValid(b) && id in b.orders && b.orders[id].creator in b.orderMap
    ensures SidesValid(Cancel(b, id))
    ensures id !in Cancel(b, id).buyOrders && id !in Cancel(b, id).sellOrders
    ensures forall x :: x != id ==>
              (x in Cancel(b, id).buyOrders <==> x in b.buyOrders) &&
              (x in Cancel(b, id).sellOrders <==> x in b.sellOrders)
  {
    SortedNoDup(HighFirst, b.orders, b.buyOrders);
    SortedNoDup(HighFirst, b.orders, b.sellOrders);
    RemoveFirstGone(b.buyOrders, id);
    RemoveFirstGone(b.sellOrders, id);
    RemoveFirstCounts(b.buyOrders, id);
    RemoveFirstCounts(b.sellOrders, id);
    RemoveFirstSorted(HighFirst, b.orders, b.buyOrders, id);
    RemoveFirstSorted(HighFirst, b.orders, b.sellOrders, id);
    SortedStable(HighFirst, b.orders, Cancel(b, id).orders, Cancel(b, id).buyOrders);
    SortedStable(HighFirst, b.orders, Cancel(b, id).orders, Cancel(b, id).sellOrders);
  }

  lemma CancelLists(b: Book, id: OrderId)
    requires ListsValid(b) && id in b.orders
    requires id !in Cancel(b, id).buyOrders && id !in Cancel(b, id).sellOrders
    requires forall x :: x != id ==>
              (x in Cancel(b, id).buyOrders <==> x in b.buyOrders) &&
              (x in Cancel(b, id).sellOrders <==> x in b.sellOrders)
    ensures ListsValid(Cancel(b, id))
    ensures id !in Cancel(b, id).orderMap[b.orders[id].creator]
    ensures forall a, x :: a in b.orderMap && x != id ==>
              (x in Cancel(b, id).orderMap[a] <==> x in b.orderMap[a])
  {
    RemoveFirstGone(b.orderMap[b.orders[id].creator], id);
    RemoveFirstCounts(b.orderMap[b.orders[id].creator], id);
  }

  /** On a valid book, the trade's removal of a filled order is a cancellation. */
  lemma RetireIsCancel(b: Book, id: OrderId)
    requires Valid(b) && id in b.orders
    ensures Retire(b, id) == Cancel(b, id)
  {
    if b.orders[id].isBuy {
      assert id !in b.sellOrders;
      RemoveFirstCounts(b.sellOrders, id);
    } else {
      assert id !in b.buyOrders;
      RemoveFirstCounts(b.buyOrders, id);
    }
  }

  /** Changing a quantity keeps the book valid. */
  lemma SetQuantKeepsValid(b: Book, id: OrderId, q: int)
    requires Valid(b) && id in b.orders
    ensures Valid(SetQuantOf(b, id, q))
  {
    var r := SetQuantOf(b, id, q);
    SortedStable(HighFirst, b.orders, r.orders, r.buyOrders);
    SortedStable(HighFirst, b.orders, r.orders, r.sellOrders);
  }

  /** The order is registered and its creator has a list: what the removals of a trade dereference. */
  predicate Holds(b: Book, id: OrderId) {
    id in b.orders && b.orders[id].creator in b.orderMap
  }

  /** After a removal, the order is zeroed and gone from both sides and its creator's list. */
  predicate Gone(b: Book, b': Book, id: OrderId)
    requires id in b.orders && id in b'.orders && b.orders[id].creator in b'.orderMap
  {
    && b'.orders[id].currentQuant == 0
    && id !in b'.buyOrders && id !in b'.sellOrders
    && id !in b'.orderMap[b.orders[id].creator]
  }

  /** The order's fields and its side memberships are as they were. */
  predicate Kept(b: Book, b': Book, x: OrderId)
    requires x in b.orders && x in b'.orders
  {
    && b'.orders[x] == b.orders[x]
    && (x in b'.buyOrders <==> x in b.buyOrders)
    && (x in b'.sellOrders <==> x in b.sellOrders)
  }

  /**
   * The engine's fields that the trading methods update beside the book:
   * the last trade price and the aggressor volumes of the last and the
   * current millisecond.
   */
  datatype Market = Market(
    book: Book,
    lastTradePrice: int,
    lastAgVolumeBuySide: int,
    lastAgVolumeSellSide: int,
    currAgVolumeBuySide: int,
    currAgVolumeSellSide: int)
  {
    /** `lastAgVolumeBuySide += v` when `buy`, else `lastAgVolumeSellSide += v`. */
    function AddLast(buy: bool, v: int): (r: Market)
      ensures r.book == book && r.lastTradePrice == lastTradePrice
      ensures r.currAgVolumeBuySide == currAgVolumeBuySide && r.currAgVolumeSellSide == currAgVolumeSellSide
      ensures r.lastAgVolumeBuySide + r.lastAgVolumeSellSide == lastAgVolumeBuySide + lastAgVolumeSellSide + v
      ensures buy ==> r.lastAgVolumeSellSide == lastAgVolumeSellSide
      ensures !buy ==> r.lastAgVolumeBuySide == lastAgVolumeBuySide
    {
      if buy then this.(lastAgVolumeBuySide := lastAgVolumeBuySide + v)
      else this.(lastAgVolumeSellSide := lastAgVolumeSellSide + v)
    }

    /** `currAgVolumeBuySide += v` when `buy`, else `currAgVolumeSellSide += v` (logAggressiveTrader, logExtraTrades). */
    function AddCurr(buy: bool, v: int): (r: Market)
      ensures r.book == book && r.lastTradePrice == lastTradePrice
      ensures r.lastAgVolumeBuySide == lastAgVolumeBuySide && r.lastAgVolumeSellSide == lastAgVolumeSellSide
      ensures r.currAgVolumeBuySide + r.currAgVolumeSellSide == currAgVolumeBuySide + currAgVolumeSellSide + v
      ensures buy ==> r.currAgVolumeSellSide == currAgVolumeSellSide
      ensures !buy ==> r.currAgVolumeBuySide == currAgVolumeBuySide
    {
      if buy then this.(currAgVolumeBuySide := currAgVolumeBuySide + v)
      else this.(currAgVolumeSellSide := currAgVolumeSellSide + v)
    }
  }

  /** What the private `trade(Order, Order)` leaves behind and returns. */
  datatype Paired = Paired(market: Market, volume: int)

  /**
   * The private pairwise trade of aggressor `a` against passive `p`: the
   * smaller order (both when equal) is removed from its side and its
   * creator's list and zeroed, the larger keeps the difference; the trade
   * happens at the passive price, and logExtraTrades adds the volume to the
   * passive side's current aggressor volume.
   */
  function PairTrade(m: Market, a: OrderId, p: OrderId): (r: Paired)
    requires Holds(m.book, a) && Holds(m.book, p) && a != p
    ensures OnlyQuantities(m.book.orders, r.market.book.orders)
    ensures r.market.book.orderMap.Keys == m.book.orderMap.Keys
  {
    var b := m.book;
    var qa := b.orders[a].currentQuant;
    var qp := b.orders[p].currentQuant;
    if qa == qp then Paired(Traded(m, b.orders[p], Retire(Retire(b, a), p), qa), qa)
    else if qa > qp then Paired(Traded(m, m.book.orders[p], Retire(SetQuantOf(b, a, qa - qp), p), qp), qp)
    else Paired(Traded(m, m.book.orders[p], Retire(SetQuantOf(b, p, qp - qa), a), qa), qa)
  }

  /** The fields after a trade of `v` shares against passive order `p` that leaves book `b'`. */
  function Traded(m: Market, passive: Order, b': Book, v: int): Market
  {
    m.(book := b', lastTradePrice := passive.price).AddCurr(passive.isBuy, v)
  }

  /** The pairwise trade, case by case: what the engine's `trade(Order, Order)` is checked against. */
  lemma PairTradeIs(m: Market, a: OrderId, p: OrderId, b': Book, v: int)
    requires Holds(m.book, a) && Holds(m.book, p) && a != p
    requires var qa := m.book.orders[a].currentQuant;
             var qp := m.book.orders[p].currentQuant;
             && (qa == qp ==> b' == Retire(Retire(m.book, a), p) && v == qa)
             && (qa > qp ==> b' == Retire(SetQuantOf(m.book, a, qa - qp), p) && v == qp)
             && (qa < qp ==> b' == Retire(SetQuantOf(m.book, p, qp - qa), a) && v == qa)
    ensures PairTrade(m, a, p) == Paired(Traded(m, m.book.orders[p], b', v), v)
  {
  }

  /**
   * What a pairwise trade of volume `v` between `a` and `p` promises: `v`
   * is min(q1, q2); the order with the smaller quantity (both when equal)
   * is zeroed and leaves its side and list; the other keeps its side and
   * is reduced by `v`; no other order changes.
   */
  predicate FillsMin(b: Book, b': Book, a: OrderId, p: OrderId, v: int)
    requires Valid(b) && a in b.orders && p in b.orders
    requires OnlyQuantities(b.orders, b'.orders) && b'.orderMap.Keys == b.orderMap.Keys
  {
    var qa := b.orders[a].currentQuant;
    var qp := b.orders[p].currentQuant;
    && v <= qa && v <= qp && (v == qa || v == qp)
    && (qa <= qp ==> Gone(b, b', a))
    && (qp <= qa ==> Gone(b, b', p))
    && (qa < qp ==> b'.orders[p].currentQuant == qp - v
                     && (p in b'.buyOrders <==> p in b.buyOrders) && (p in b'.sellOrders <==> p in b.sellOrders))
    && (qp < qa ==> b'.orders[a].currentQuant == qa - v
                     && (a in b'.buyOrders <==> a in b.buyOrders) && (a in b'.sellOrders <==> a in b.sellOrders))
    && (forall x :: x in b.orders && x != a && x != p ==> Kept(b, b', x))
  }

  /** The pairwise trade keeps the book valid, fills min(q1, q2) and trades at the passive price. */
  lemma PairTradeFillsMin(m: Market, a: OrderId, p: OrderId)
    requires Valid(m.book) && a in m.book.orders && p in m.book.orders && a != p
    ensures Valid(PairTrade(m, a, p).market.book)
    ensures FillsMin(m.book, PairTrade(m, a, p).market.book, a, p, PairTrade(m, a, p).volume)
    ensures PairTrade(m, a, p).market.lastTradePrice == m.book.orders[p].price
  {
    var b := m.book;
    var qa := b.orders[a].currentQuant;
    var qp := b.orders[p].currentQuant;
    if qa == qp {
      PairTradeEqual(m, a, p);
    } else if qa > qp {
      PairTradeAggressorLarger(m, a, p);
    } else {
      PairTradePassiveLarger(m, a, p);
    }
  }

  /** The pairwise trade keeps the book valid. */
  lemma PairTradeKeepsValid(m: Market, a: OrderId, p: OrderId)
    requires Valid(m.book) && a in m.book.orders && p in m.book.orders && a != p
    ensures Valid(PairTrade(m, a, p).market.book)
  {
    PairTradeFillsMin(m, a, p);
  }

  lemma PairTradeEqual(m: Market, a: OrderId, p: OrderId)
    requires Valid(m.book) && a in m.book.orders && p in m.book.orders && a != p
    requires m.book.orders[a].currentQuant == m.book.orders[p].currentQuant
    ensures Valid(PairTrade(m, a, p).market.book)
    ensures FillsMin(m.book, PairTrade(m, a, p).market.book, a, p, PairTrade(m, a, p).volume)
  {
    var b := m.book;
    EqualBook(b, a, p);
    var r := PairTrade(m, a, p);
    assert r.market.book == Retire(Retire(b, a), p);
  }

  lemma PairTradeAggressorLarger(m: Market, a: OrderId, p: OrderId)
    requires Valid(m.book) && a in m.book.orders && p in m.book.orders && a != p
    requires m.book.orders[a].currentQuant > m.book.orders[p].currentQuant
    ensures Valid(PairTrade(m, a, p).market.book)
    ensures FillsMin(m.book, PairTrade(m, a, p).market.book, a, p, PairTrade(m, a, p).volume)
  {
    var b := m.book;
    AggressorLargerBook(b, a, p);
    var r := PairTrade(m, a, p);
    assert r.market.book == Retire(SetQuantOf(b, a, b.orders[a].currentQuant - b.orders[p].currentQuant), p);
  }

  lemma PairTradePassiveLarger(m: Market, a: OrderId, p: OrderId)
    requires Valid(m.book) && a in m.book.orders && p in m.book.orders && a != p
    requires m.book.orders[a].currentQuant < m.book.orders[p].currentQuant
    ensures Valid(PairTrade(m, a, p).market.book)
    ensures FillsMin(m.book, PairTrade(m, a, p).market.book, a, p, PairTrade(m, a, p).volume)
  {
    var b := m.book;
    PassiveLargerBook(b, a, p);
    var r := PairTrade(m, a, p);
    assert r.market.book == Retire(SetQuantOf(b, p, b.orders[p].currentQuant - b.orders[a].currentQuant), a);
  }

  lemma EqualBook(b: Book, a: OrderId, p: OrderId)
    requires Valid(b) && a in b.orders && p in b.orders && a != p
    requires b.orders[a].currentQuant == b.orders[p].currentQuant
    ensures var b' := Retire(Retire(b, a), p);
            && Valid(b') && OnlyQuantities(b.orders, b'.orders) && b'.orderMap.Keys == b.orderMap.Keys
            && FillsMin(b, b', a, p, b.orders[a].currentQuant)
  {
    RetireBoth(b, a, p);
    var b1 := Retire(b, a);
    RetireOnlyQuantity(b, a);
    RetireOnlyQuantity(b1, p);
    OnlyQuantitiesTrans(b.orders, b1.orders, Retire(b1, p).orders);
  }

  lemma AggressorLargerBook(b: Book, a: OrderId, p: OrderId)
    requires Valid(b) && a in b.orders && p in b.orders && a != p
    requires b.orders[a].currentQuant > b.orders[p].currentQuant
    ensures var b' := Retire(SetQuantOf(b, a, b.orders[a].currentQuant - b.orders[p].currentQuant), p);
            && Valid(b') && OnlyQuantities(b.orders, b'.orders) && b'.orderMap.Keys == b.orderMap.Keys
            && FillsMin(b, b', a, p, b.orders[p].currentQuant)
  {
    ShrinkThenRetire(b, a, p, b.orders[a].currentQuant - b.orders[p].currentQuant);
    var b1 := SetQuantOf(b, a, b.orders[a].currentQuant - b.orders[p].currentQuant);
    SetQuantOnlyQuantity(b, a, b.orders[a].currentQuant - b.orders[p].currentQuant);
    RetireOnlyQuantity(b1, p);
    OnlyQuantitiesTrans(b.orders, b1.orders, Retire(b1, p).orders);
  }

  lemma PassiveLargerBook(b: Book, a: OrderId, p: OrderId)
    requires Valid(b) && a in b.orders && p in b.orders && a != p
    requires b.orders[a].currentQuant < b.orders[p].currentQuant
    ensures var b' := Retire(SetQuantOf(b, p, b.orders[p].currentQuant - b.orders[a].currentQuant), a);
            && Valid(b') && OnlyQuantities(b.orders, b'.orders) && b'.orderMap.Keys == b.orderMap.Keys
            && FillsMin(b, b', a, p, b.orders[a].currentQuant)
  {
    ShrinkThenRetire(b, p, a, b.orders[p].currentQuant - b.orders[a].currentQuant);
    var b1 := SetQuantOf(b, p, b.orders[p].currentQuant - b.orders[a].currentQuant);
    SetQuantOnlyQuantity(b, p, b.orders[p].currentQuant - b.orders[a].currentQuant);
    RetireOnlyQuantity(b1, a);
    OnlyQuantitiesTrans(b.orders, b1.orders, Retire(b1, a).orders);
  }

  /** Retiring an order changes quantities only and no creator's entry. */
  lemma RetireOnlyQuantity(b: Book, id: OrderId)
    requires id in b.orders && b.orders[id].creator in b.orderMap
    ensures OnlyQuantities(b.orders, Retire(b, id).orders) && Retire(b, id).orderMap.Keys == b.orderMap.Keys
  {
  }

  /** Setting a quantity changes quantities only and no creator's entry. */
  lemma SetQuantOnlyQuantity(b: Book, id: OrderId, q: int)
    requires id in b.orders
    ensures OnlyQuantities(b.orders, SetQuantOf(b, id, q).orders) && SetQuantOf(b, id, q).orderMap == b.orderMap
  {
  }

  /** Both orders of an equal-quantity trade are removed; nothing else changes. */
  lemma RetireBoth(b: Book, a: OrderId, p: OrderId)
    requires Valid(b) && a in b.orders && p in b.orders && a != p
    ensures var b' := Retire(Retire(b, a), p);
            && Valid(b') && Gone(b, b', a) && Gone(b, b', p)
            && (forall x :: x in b.orders && x != a && x != p ==> Kept(b, b', x))
  {
    RetireIsCancel(b, a);
    CancelKeepsValid(b, a);
    var b1 := Cancel(b, a);
    RetireIsCancel(b1, p);
    CancelKeepsValid(b1, p);
  }

  /** The larger order `x` keeps quantity `q`, the smaller `y` is removed; nothing else changes. */
  lemma ShrinkThenRetire(b: Book, x: OrderId, y: OrderId, q: int)
    requires Valid(b) && x in b.orders && y in b.orders && x != y
    ensures var b' := Retire(SetQuantOf(b, x, q), y);
            && Valid(b') && Gone(b, b', y)
            && b'.orders[x].currentQuant == q
            && (x in b'.buyOrders <==> x in b.buyOrders) && (x in b'.sellOrders <==> x in b.sellOrders)
            && (forall z :: z in b.orders && z != x && z != y ==> Kept(b, b', z))
  {
    SetQuantKeepsValid(b, x, q);
    var b1 := SetQuantOf(b, x, q);
    RetireIsCancel(b1, y);
    CancelKeepsValid(b1, y);
  }

  /**
   * willTrade: `None` (Java's `null`) when no order on the opposite side
   * has exactly the incoming price, else those orders, in the side's order.
   */
  function WillTrade(b: Book, o: Order): (r: Option<seq<OrderId>>)
    requires Known(b.orders, b.buyOrders) && Known(b.orders, b.sellOrders)
    ensures r.None? <==> forall x :: x in Side(b, !o.isBuy) ==> b.orders[x].price != o.price
    ensures r.Some? ==> |r.value| > 0 && Known(b.orders, r.value)
    ensures r.Some? ==> forall x :: x in r.value <==> x in Side(b, !o.isBuy) && b.orders[x].price == o.price
  {
    var same := AtPrice(b.orders, Side(b, !o.isBuy), o.price);
    if |same| == 0 then None
    else
      assert same[0] in same;
      Some(same)
  }

  /** The engine's fields after an operation, and the fills it reported to agents, in call order. */
  datatype Outcome = Outcome(market: Market, fills: seq<Fill>)

  /** What `trade(Order, ArrayList)` may be handed: no list, or a non-empty list of other orders the engine holds. */
  predicate Candidates(b: Book, id: OrderId, cands: Option<seq<OrderId>>) {
    cands.Some? ==> |cands.value| > 0 && forall i :: 0 <= i < |cands.value| ==> Holds(b, cands.value[i]) && cands.value[i] != id
  }

  /**
   * `trade(Order, ArrayList)` on the engine's fields: no candidates leaves
   * everything alone; in the starting period the incoming order is
   * cancelled; otherwise it trades against the candidate that
   * highestFirstComparator puts first, the aggressor's side gets the
   * volume as last and current aggressor volume, and both agents are told,
   * the buyer with `+volume` and the seller with `-volume`.
   */
  function LimitTrade(m: Market, id: OrderId, cands: Option<seq<OrderId>>, starting: bool): (r: Outcome)
    requires Holds(m.book, id) && Candidates(m.book, id, cands)
  {
    match cands
    case None => Outcome(m, [])
    case Some(c) =>
      if starting then Outcome(m.(book := Cancel(m.book, id)), [])
      else Matched(m, id, c)
  }

  /**
   * The trading case of `trade(Order, ArrayList)`: the last trade price
   * becomes the first candidate's, the pairwise trade runs against the
   * oldest candidate, the aggressor's side gets the volume as last and
   * current aggressor volume, and each side's creator gets a fill.
   */
  function Matched(m: Market, id: OrderId, c: seq<OrderId>): Outcome
    requires Holds(m.book, id) && Candidates(m.book, id, Some(c))
  {
    var reg := m.book.orders;
    var o := reg[id];
    var p := Least(HighFirst, reg, c);
    var t := PairTrade(m.(lastTradePrice := reg[c[0]].price), id, p);
    Outcome(t.market.AddLast(o.isBuy, t.volume).AddCurr(o.isBuy, t.volume),
            [Fill(o.creator, Signed(o.isBuy, t.volume)), Fill(reg[p].creator, Signed(!o.isBuy, t.volume))])
  }

  /** The trading case of `trade(Order, ArrayList)`, in terms of the fields the pairwise trade leaves. */
  lemma LimitTradeIs(m: Market, id: OrderId, c: seq<OrderId>, p: OrderId, paired: Market, v: int)
    requires Holds(m.book, id) && Candidates(m.book, id, Some(c))
    requires p == Least(HighFirst, m.book.orders, c)
    requires Paired(paired, v) == PairTrade(m.(lastTradePrice := m.book.orders[c[0]].price), id, p)
    ensures LimitTrade(m, id, Some(c), false)
            == Outcome(paired.AddLast(m.book.orders[id].isBuy, v).AddCurr(m.book.orders[id].isBuy, v),
                       [Fill(m.book.orders[id].creator, Signed(m.book.orders[id].isBuy, v)),
                        Fill(m.book.orders[p].creator, Signed(!m.book.orders[id].isBuy, v))])
  {
  }

  /** What `trade(Order, ArrayList)` returns. */
  function LimitTraded(cands: Option<seq<OrderId>>, starting: bool): (r: bool)
    ensures r <==> cands.Some? && !starting
  {
    match cands
    case None => false
    case Some(_) => !starting
  }

  /** The sum of the volumes of all fills: shares bought minus shares sold across agents. */
  function Net(fills: seq<Fill>): int
    decreases |fills|
  {
    if |fills| == 0 then 0 else Net(fills[..|fills| - 1]) + fills[|fills| - 1].volume
  }

  /** The shares credited to `agent` by the fills, in the order they were reported. */
  function Credit(fills: seq<Fill>, agent: AgentId): int
    decreases |fills|
  {
    if |fills| == 0 then 0
    else Credit(fills[..|fills| - 1], agent) + (if fills[|fills| - 1].agent == agent then fills[|fills| - 1].volume else 0)
  }

  /** Whether any fill went to `agent`. */
  predicate Notified(fills: seq<Fill>, agent: AgentId)
    decreases |fills|
  {
    |fills| > 0 && (fills[|fills| - 1].agent == agent || Notified(fills[..|fills| - 1], agent))
  }

  /** Conservation: the two fills of a limit trade cancel out. */
  lemma {:induction false} NetPair(a: Fill, b: Fill)
    requires a.volume == -b.volume
    ensures Net([a, b]) == 0
  {
    assert [a, b][..1] == [a];
    assert [a][..0] == [];
    assert Net([a]) == a.volume;
  }

  /** Appending a fill adds its volume to the net. */
  lemma NetAppend(fills: seq<Fill>, f: Fill)
    ensures Net(fills + [f]) == Net(fills) + f.volume
  {
    assert (fills + [f])[..|fills|] == fills;
  }

  /** A fill credits only its own agent, and marks it as told. */
  lemma CreditAppend(fills: seq<Fill>, f: Fill, agent: AgentId)
    ensures Credit(fills + [f], agent) == Credit(fills, agent) + (if f.agent == agent then f.volume else 0)
    ensures Notified(fills + [f], agent) <==> Notified(fills, agent) || f.agent == agent
  {
    assert (fills + [f])[..|fills|] == fills;
  }

  /** The credit and notice of a single fill. */
  lemma CreditOne(f: Fill)
    ensures forall k :: Credit([f], k) == (if f.agent == k then f.volume else 0)
    ensures forall k :: Notified([f], k) <==> f.agent == k
  {
    forall k
      ensures Credit([f], k) == (if f.agent == k then f.volume else 0)
      ensures Notified([f], k) <==> f.agent == k
    {
      CreditAppend([], f, k);
      assert [] + [f] == [f];
    }
  }

  /** The credits and notices of two fills reported one after the other. */
  lemma CreditPair(f1: Fill, f2: Fill)
    ensures forall k :: Credit([f1, f2], k) == (if f1.agent == k then f1.volume else 0) + (if f2.agent == k then f2.volume else 0)
    ensures forall k :: Notified([f1, f2], k) <==> f1.agent == k || f2.agent == k
  {
    forall k
      ensures Credit([f1, f2], k) == (if f1.agent == k then f1.volume else 0) + (if f2.agent == k then f2.volume else 0)
      ensures Notified([f1, f2], k) <==> f1.agent == k || f2.agent == k
    {
      CreditAppend([f1], f2, k);
      CreditAppend([], f1, k);
      assert [f1] + [f2] == [f1, f2];
      assert [] + [f1] == [f1];
    }
  }

  /** Every list willTrade returns is a valid argument for `trade(Order, ArrayList)`. */
  lemma WillTradeCandidates(b: Book, id: OrderId)
    requires Valid(b) && id in b.orders
    ensures Candidates(b, id, WillTrade(b, b.orders[id]))
  {
  }

  /**
   * The order `trade(Order, ArrayList)` picks from willTrade's list is the
   * oldest (smallest ID) opposite order at exactly the incoming price.
   */
  lemma MatchedIsOldest(b: Book, id: OrderId)
    requires Valid(b) && id in b.orders
    requires WillTrade(b, b.orders[id]).Some?
    ensures var o := b.orders[id];
            var c := WillTrade(b, o).value;
            var p := Least(HighFirst, b.orders, c);
            && p in Side(b, !o.isBuy) && b.orders[p].price == o.price
            && forall x :: x in Side(b, !o.isBuy) && b.orders[x].price == o.price && x != p ==> p < x
  {
    var c := WillTrade(b, b.orders[id]).value;
    LeastIsLeast(HighFirst, b.orders, c);
  }

  /**
   * Outside the starting period, a limit order trades against the
   * candidate highestFirstComparator puts first, for min(q1, q2) shares:
   * the aggressor is credited `+volume` if it buys and `-volume` if it
   * sells, the passive agent the opposite, each current aggressor volume
   * grows by the volume, the trade is at the matched order's price and the
   * book stays valid.
   */
  lemma LimitTradeFills(m: Market, id: OrderId, c: seq<OrderId>)
    requires Valid(m.book) && id in m.book.orders && Candidates(m.book, id, Some(c))
    ensures var reg := m.book.orders;
            var p := Least(HighFirst, reg, c);
            var t := PairTrade(m.(lastTradePrice := reg[c[0]].price), id, p);
            var r := LimitTrade(m, id, Some(c), false);
            && Valid(r.market.book)
            && FillsMin(m.book, r.market.book, id, p, t.volume)
            && r.fills == [Fill(reg[id].creator, Signed(reg[id].isBuy, t.volume)), Fill(reg[p].creator, Signed(!reg[id].isBuy, t.volume))]
            && Net(r.fills) == 0
            && r.market.lastTradePrice == reg[p].price
            && r.market.currAgVolumeBuySide + r.market.currAgVolumeSellSide
               == m.currAgVolumeBuySide + m.currAgVolumeSellSide + 2 * t.volume
  {
    PairTradeFillsMin(m.(lastTradePrice := m.book.orders[c[0]].price), id, Least(HighFirst, m.book.orders, c));
    NetPair(LimitTrade(m, id, Some(c), false).fills[0], LimitTrade(m, id, Some(c), false).fills[1]);
  }

  /**
   * createOrder on the engine's fields: the order joins its side and its
   * creator's list; a limit order then goes through willTrade and
   * `trade(Order, ArrayList)`, a market order does nothing more.
   */
  function CreateOrder(m: Market, o: Order, market: bool, starting: bool): (r: Outcome)
    requires Valid(m.book) && o.id !in m.book.orders
  {
    PlaceKeepsValid(m.book, o);
    var m1 := m.(book := Place(m.book, o));
    if market then Outcome(m1, [])
    else
      WillTradeCandidates(m1.book, o.id);
      LimitTrade(m1, o.id, WillTrade(m1.book, o), starting)
  }

  /** What createOrder returns. */
  function CreateTraded(b: Book, o: Order, market: bool, starting: bool): (r: bool)
    requires Valid(b) && o.id !in b.orders
    ensures r <==> !market && !starting && exists x :: x in Side(b, !o.isBuy) && b.orders[x].price == o.price
  {
    PlaceKeepsValid(b, o);
    var c := WillTrade(Place(b, o), o);
    !market && LimitTraded(c, starting)
  }

  /**
   * A market order, or a limit order that meets no opposite order at its
   * price, rests on its side with nobody told of a fill.
   */
  lemma CreateOrderRests(m: Market, o: Order, market: bool, starting: bool)
    requires Valid(m.book) && o.id !in m.book.orders
    requires market || forall x :: x in Side(m.book, !o.isBuy) ==> m.book.orders[x].price != o.price
    ensures var r := CreateOrder(m, o, market, starting);
            && Valid(r.market.book)
            && r.market == m.(book := Place(m.book, o))
            && o.id in Side(r.market.book, o.isBuy) && r.market.book.orders[o.id] == o
            && r.fills == []
  {
    PlaceKeepsValid(m.book, o);
  }

  /** In the starting period a limit order that would trade is cancelled instead, and no one is told of a fill. */
  lemma CreateOrderInStartingPeriod(m: Market, o: Order)
    requires Valid(m.book) && o.id !in m.book.orders
    requires WillTrade(Place(m.book, o), o).Some?
    ensures var r := CreateOrder(m, o, false, true);
            && Valid(r.market.book)
            && Gone(Place(m.book, o), r.market.book, o.id)
            && r.market.book.buyOrders == m.book.buyOrders && r.market.book.sellOrders == m.book.sellOrders
            && r.fills == []
  {
    PlaceKeepsValid(m.book, o);
    CancelKeepsValid(Place(m.book, o), o.id);
    PlaceThenCancel(m.book, o);
  }

  /** A limit order that trades keeps the book valid, and its fills cancel out. */
  lemma CreateOrderTrades(m: Market, o: Order)
    requires Valid(m.book) && o.id !in m.book.orders
    requires WillTrade(Place(m.book, o), o).Some?
    ensures var r := CreateOrder(m, o, false, false);
            Valid(r.market.book) && Net(r.fills) == 0 && |r.fills| == 2
  {
    PlaceKeepsValid(m.book, o);
    var b1 := Place(m.book, o);
    WillTradeCandidates(b1, o.id);
    LimitTradeFills(m.(book := b1), o.id, WillTrade(b1, o).value);
  }

  /** Every order of `s` is held, and none is `a`. */
  predicate AllHeld(b: Book, s: seq<OrderId>, a: OrderId) {
    forall i :: 0 <= i < |s| ==> Holds(b, s[i]) && s[i] != a
  }

  /** A trade that changes only quantities keeps a list of held orders held. */
  lemma AllHeldStable(b: Book, b': Book, s: seq<OrderId>, a: OrderId)
    requires AllHeld(b, s, a)
    requires OnlyQuantities(b.orders, b'.orders) && b'.orderMap.Keys == b.orderMap.Keys
    ensures AllHeld(b', s, a)
  {
    forall i | 0 <= i < |s|
      ensures Holds(b', s[i]) && s[i] != a
    {
      assert Holds(b, s[i]);
    }
  }

  /** The fields a market order sweep leaves behind: the total volume, the last trade price and the passive fills. */
  datatype Swept = Swept(market: Market, total: int, price: int, fills: seq<Fill>)

  /** The passive fill of one pass of the sweep loop: the opposite direction to the aggressor. */
  function PassiveFill(m: Market, a: OrderId, p: OrderId, v: int): (f: Fill)
    requires a in m.book.orders && p in m.book.orders
  {
    Fill(m.book.orders[p].creator, Signed(!m.book.orders[a].isBuy, v))
  }

  /** A volume as the fill of the buyer (`buy`) or of the seller: positive for a purchase, negative for a sale. */
  function Signed(buy: bool, v: int): int {
    if buy then v else -v
  }

  /**
   * The loop of tradeMarketOrder from the `i`-th of the top orders `tops`
   * on: the aggressor `a` trades against each in order, each passive agent
   * is told of its fill, and the loop stops after the trade that brings the
   * total to `quantityToRid`.
   */
  function Sweep(m: Market, a: OrderId, tops: seq<OrderId>, i: nat, total: int, quantityToRid: int, price: int, fills: seq<Fill>): (r: Swept)
    requires Holds(m.book, a) && AllHeld(m.book, tops, a)
    decreases |tops| - i
  {
    if i >= |tops| then Swept(m, total, price, fills)
    else
      var p := tops[i];
      PassKeepsHeld(m, a, tops, i);
      var t := PairTrade(m, a, p);
      var fill := PassiveFill(m, a, p, t.volume);
      if total + t.volume < quantityToRid then
        Sweep(t.market, a, tops, i + 1, total + t.volume, quantityToRid, m.book.orders[p].price, fills + [fill])
      else Swept(t.market, total + t.volume, m.book.orders[p].price, fills + [fill])
  }

  /** The sweep keeps the book valid, with the same orders and agents registered. */
  lemma {:induction false} SweepKeepsValid(m: Market, a: OrderId, tops: seq<OrderId>, i: nat, total: int, quantityToRid: int, price: int, fills: seq<Fill>)
    requires Valid(m.book) && a in m.book.orders && AllHeld(m.book, tops, a)
    ensures var r := Sweep(m, a, tops, i, total, quantityToRid, price, fills);
            && Valid(r.market.book)
            && r.market.book.orders.Keys == m.book.orders.Keys
            && r.market.book.orderMap.Keys == m.book.orderMap.Keys
    decreases |tops| - i
  {
    if i >= |tops| {
      SweepExhausted(m, a, tops, i, total, quantityToRid, price, fills);
    } else {
      var p := tops[i];
      PassKeepsHeld(m, a, tops, i);
      PairTradeFillsMin(m, a, p);
      var t := PairTrade(m, a, p);
      var total', price', fills' := total + t.volume, m.book.orders[p].price, fills + [PassiveFill(m, a, p, t.volume)];
      if total' < quantityToRid {
        SweepContinues(m, a, tops, i, total, quantityToRid, price, fills, t.market, i + 1, total', price', fills');
        SweepKeepsValid(t.market, a, tops, i + 1, total', quantityToRid, price', fills');
      } else {
        SweepEnds(m, a, tops, i, total, quantityToRid, price, fills, t.market, total', price', fills');
      }
    }
  }

  /**
   * What the aggressor loses in quantity over the sweep is what the total
   * gains, its quantity stays non-negative once it has traded, and the
   * passive fills balance the aggressor's signed total.
   */
  lemma {:induction false} SweepBalances(m: Market, a: OrderId, tops: seq<OrderId>, i: nat, total: int, quantityToRid: int, price: int, fills: seq<Fill>)
    requires Valid(m.book) && a in m.book.orders && AllHeld(m.book, tops, a)
    ensures var r := Sweep(m, a, tops, i, total, quantityToRid, price, fills);
            && a in r.market.book.orders
            && r.market.book.orders[a].currentQuant + r.total == m.book.orders[a].currentQuant + total
            && (i < |tops| ==> r.market.book.orders[a].currentQuant >= 0)
            && Net(r.fills) + Signed(m.book.orders[a].isBuy, r.total) == Net(fills) + Signed(m.book.orders[a].isBuy, total)
    decreases |tops| - i
  {
    SweepKeepsValid(m, a, tops, i, total, quantityToRid, price, fills);
    if i >= |tops| {
      SweepExhausted(m, a, tops, i, total, quantityToRid, price, fills);
    } else {
      var p := tops[i];
      PassKeepsHeld(m, a, tops, i);
      PairTradeFillsMin(m, a, p);
      var t := PairTrade(m, a, p);
      var fill := PassiveFill(m, a, p, t.volume);
      NetAppend(fills, fill);
      var total', price', fills' := total + t.volume, m.book.orders[p].price, fills + [fill];
      if total' < quantityToRid {
        SweepContinues(m, a, tops, i, total, quantityToRid, price, fills, t.market, i + 1, total', price', fills');
        SweepBalances(t.market, a, tops, i + 1, total', quantityToRid, price', fills');
      } else {
        SweepEnds(m, a, tops, i, total, quantityToRid, price, fills, t.market, total', price', fills');
      }
    }
  }

  /** The trade of one pass of the sweep keeps the aggressor and every top order held. */
  lemma PassKeepsHeld(m: Market, a: OrderId, tops: seq<OrderId>, i: nat)
    requires Holds(m.book, a) && AllHeld(m.book, tops, a) && i < |tops|
    ensures Holds(m.book, tops[i]) && tops[i] != a
    ensures var t := PairTrade(m, a, tops[i]);
            && Holds(t.market.book, a) && AllHeld(t.market.book, tops, a)
            && t.market.book.orderMap.Keys == m.book.orderMap.Keys
  {
    assert Holds(m.book, tops[i]);
    AllHeldStable(m.book, PairTrade(m, a, tops[i]).market.book, tops, a);
  }

  /**
   * A pass of the sweep that leaves the total short of `quantityToRid` goes
   * on to the next top order: `m'`, `total'`, `price'` and `fills'` are what
   * the pass leaves behind.
   */
  lemma SweepContinues(m: Market, a: OrderId, tops: seq<OrderId>, i: nat, total: int, quantityToRid: int, price: int, fills: seq<Fill>,
                       m': Market, i': nat, total': int, price': int, fills': seq<Fill>)
    requires Holds(m.book, a) && AllHeld(m.book, tops, a) && i < |tops|
    requires Holds(m.book, tops[i]) && tops[i] != a
    requires Holds(m'.book, a) && AllHeld(m'.book, tops, a)
    requires m' == PairTrade(m, a, tops[i]).market && i' == i + 1
    requires total' == total + PairTrade(m, a, tops[i]).volume && total' < quantityToRid
    requires price' == m.book.orders[tops[i]].price
    requires fills' == fills + [PassiveFill(m, a, tops[i], PairTrade(m, a, tops[i]).volume)]
    ensures Sweep(m, a, tops, i, total, quantityToRid, price, fills) == Sweep(m', a, tops, i', total', quantityToRid, price', fills')
  {
  }

  /** The pass of the sweep that brings the total to `quantityToRid` is its last. */
  lemma SweepEnds(m: Market, a: OrderId, tops: seq<OrderId>, i: nat, total: int, quantityToRid: int, price: int, fills: seq<Fill>,
                  m': Market, total': int, price': int, fills': seq<Fill>)
    requires Holds(m.book, a) && AllHeld(m.book, tops, a) && i < |tops|
    requires Holds(m.book, tops[i]) && tops[i] != a
    requires m' == PairTrade(m, a, tops[i]).market
    requires total' == total + PairTrade(m, a, tops[i]).volume && total' >= quantityToRid
    requires price' == m.book.orders[tops[i]].price
    requires fills' == fills + [PassiveFill(m, a, tops[i], PairTrade(m, a, tops[i]).volume)]
    ensures Sweep(m, a, tops, i, total, quantityToRid, price, fills) == Swept(m', total', price', fills')
  {
  }

  /** Past the last top order the sweep is over. */
  lemma SweepExhausted(m: Market, a: OrderId, tops: seq<OrderId>, i: nat, total: int, quantityToRid: int, price: int, fills: seq<Fill>)
    requires Holds(m.book, a) && AllHeld(m.book, tops, a) && i >= |tops|
    ensures Sweep(m, a, tops, i, total, quantityToRid, price, fills) == Swept(m, total, price, fills)
  {
  }

  /** The sweep from the `i`-th top order on, in market `m`, is defined and comes to `goal`. */
  predicate SweepsTo(m: Market, a: OrderId, tops: seq<OrderId>, i: nat, total: int, quantityToRid: int, price: int, fills: seq<Fill>, goal: Swept) {
    && Holds(m.book, a) && AllHeld(m.book, tops, a)
    && Sweep(m, a, tops, i, total, quantityToRid, price, fills) == goal
  }

  /** The orders of `s` of the given direction, in the order of `s`. */
  function OfSide(reg: Registry, s: seq<OrderId>, buy: bool): (r: seq<OrderId>)
    requires Known(reg, s)
    ensures Known(reg, r)
    ensures forall x :: x in r <==> x in s && reg[x].isBuy == buy
    decreases |s|
  {
    if |s| == 0 then []
    else OfSide(reg, s[..|s| - 1], buy) + (if reg[s[|s| - 1]].isBuy == buy then [s[|s| - 1]] else [])
  }

  /** cancelOrder applied to each order of `ids` in turn; the book stays valid and only quantities change. */
  function CancelEach(b: Book, ids: seq<OrderId>): (r: Book)
    requires Valid(b) && Known(b.orders, ids)
    ensures Valid(r) && OnlyQuantities(b.orders, r.orders) && r.orderMap.Keys == b.orderMap.Keys
    decreases |ids|
  {
    if |ids| == 0 then b
    else
      CancelKeepsValid(CancelEach(b, ids[..|ids| - 1]), ids[|ids| - 1]);
      CancelOnlyQuantities(CancelEach(b, ids[..|ids| - 1]), ids[|ids| - 1]);
      OnlyQuantitiesTrans(b.orders, CancelEach(b, ids[..|ids| - 1]).orders, Cancel(CancelEach(b, ids[..|ids| - 1]), ids[|ids| - 1]).orders);
      Cancel(CancelEach(b, ids[..|ids| - 1]), ids[|ids| - 1])
  }

  /** An element of a non-empty sequence is in all but its last element, or is the last. */
  lemma InitOrLast(ids: seq<OrderId>)
    requires |ids| > 0
    ensures forall x :: x in ids <==> x in ids[..|ids| - 1] || x == ids[|ids| - 1]
  {
    assert ids == ids[..|ids| - 1] + [ids[|ids| - 1]];
  }

  lemma CancelOnlyQuantities(b: Book, id: OrderId)
    requires id in b.orders && b.orders[id].creator in b.orderMap
    ensures OnlyQuantities(b.orders, Cancel(b, id).orders) && Cancel(b, id).orderMap.Keys == b.orderMap.Keys
  {
  }

  lemma OnlyQuantitiesTrans(r1: Registry, r2: Registry, r3: Registry)
    requires OnlyQuantities(r1, r2) && OnlyQuantities(r2, r3)
    ensures OnlyQuantities(r1, r3)
  {
  }

  /** After cancelling each order of `ids`, each of them is zeroed, off both sides and out of its creator's list. */
  lemma {:induction false} CancelEachGone(b: Book, ids: seq<OrderId>)
    requires Valid(b) && Known(b.orders, ids)
    ensures forall x :: x in ids ==> Gone(b, CancelEach(b, ids), x)
    decreases |ids|
  {
    if |ids| > 0 {
      CancelEachGone(b, ids[..|ids| - 1]);
      CancelKeepsValid(CancelEach(b, ids[..|ids| - 1]), ids[|ids| - 1]);
      InitOrLast(ids);
    }
  }

  /** Every order not in `ids` keeps its fields and its side membership. */
  lemma {:induction false} CancelEachKeeps(b: Book, ids: seq<OrderId>)
    requires Valid(b) && Known(b.orders, ids)
    ensures forall x :: x in b.orders && x !in ids ==> Kept(b, CancelEach(b, ids), x)
    decreases |ids|
  {
    if |ids| > 0 {
      CancelEachKeeps(b, ids[..|ids| - 1]);
      CancelKeepsValid(CancelEach(b, ids[..|ids| - 1]), ids[|ids| - 1]);
      InitOrLast(ids);
    }
  }

  /** Every order not in `ids` stays in exactly the lists it was in. */
  lemma {:induction false} CancelEachLists(b: Book, ids: seq<OrderId>)
    requires Valid(b) && Known(b.orders, ids)
    ensures forall a, x :: a in b.orderMap && x !in ids ==> (x in CancelEach(b, ids).orderMap[a] <==> x in b.orderMap[a])
    decreases |ids|
  {
    if |ids| > 0 {
      CancelEachLists(b, ids[..|ids| - 1]);
      CancelKeepsValid(CancelEach(b, ids[..|ids| - 1]), ids[|ids| - 1]);
      InitOrLast(ids);
    }
  }

  /** topBuyOrders (`buy`) or topSellOrders: the ten best orders of a side, each in its own comparator's order. */
  function TopOf(b: Book, buy: bool): (r: seq<OrderId>)
    requires Known(b.orders, b.buyOrders) && Known(b.orders, b.sellOrders)
    ensures forall x :: x in r ==> x in Side(b, buy)
  {
    if buy then Top(HighFirst, b.orders, b.buyOrders, TopCount)
    else Top(LowFirst, b.orders, b.sellOrders, TopCount)
  }

  /** Neither top-ten list is empty unless its side is. */
  lemma TopOfEmpty(b: Book, buy: bool)
    requires Valid(b)
    ensures |TopOf(b, buy)| == 0 <==> |Side(b, buy)| == 0
  {
    SortedNoDup(HighFirst, b.orders, b.buyOrders);
    SortedNoDup(HighFirst, b.orders, b.sellOrders);
    if buy {
      TopIsLeastK(HighFirst, b.orders, b.buyOrders, TopCount);
    } else {
      TopIsLeastK(LowFirst, b.orders, b.sellOrders, TopCount);
    }
  }

  /**
   * tradeMarketOrder on the engine's fields: nothing in the starting period;
   * otherwise the order is created as a market order and swept against the
   * top ten orders of the opposite side (cancelled if there are none), the
   * aggressor is told of the total, and the aggressor volumes and the last
   * trade price are updated.
   */
  function MarketOrder(m: Market, o: Order, starting: bool): (r: Outcome)
    requires Valid(m.book) && o.id !in m.book.orders
  {
    if starting then Outcome(m, [])
    else
      PlaceKeepsValid(m.book, o);
      SweepPlaced(m.(book := Place(m.book, o)), o.id)
  }

  /**
   * The part of tradeMarketOrder after createOrder, for the placed order
   * `a`: cancelled when the opposite side is empty, otherwise swept against
   * that side's top ten, with the aggressor told of the signed total last.
   */
  function SweepPlaced(m: Market, a: OrderId): (r: Outcome)
    requires Valid(m.book) && a in m.book.orders
  {
    var o := m.book.orders[a];
    var tops := TopOf(m.book, !o.isBuy);
    if |tops| == 0 then Outcome(m.(book := Cancel(m.book, a)), [])
    else
      var s := Sweep(m, a, tops, 0, 0, o.currentQuant, 0, []);
      Outcome(s.market.AddLast(o.isBuy, s.total).(lastTradePrice := s.price).AddCurr(o.isBuy, s.total),
              s.fills + [Fill(o.creator, Signed(o.isBuy, s.total))])
  }

  /** The top orders of the side opposite a registered order are held, and none of them is that order. */
  lemma TopsHeld(b: Book, a: OrderId)
    requires Valid(b) && a in b.orders
    ensures AllHeld(b, TopOf(b, !b.orders[a].isBuy), a)
  {
  }

  /** Against a non-empty opposite side, the outcome of a sweep that ends in `m'` with `total`, `price` and `fills`. */
  lemma SweepPlacedSwept(m: Market, a: OrderId, tops: seq<OrderId>, m': Market, total: int, price: int, fills: seq<Fill>)
    requires Valid(m.book) && a in m.book.orders
    requires tops == TopOf(m.book, !m.book.orders[a].isBuy) && |tops| > 0 && AllHeld(m.book, tops, a)
    requires Sweep(m, a, tops, 0, 0, m.book.orders[a].currentQuant, 0, []) == Swept(m', total, price, fills)
    ensures var o := m.book.orders[a];
            SweepPlaced(m, a) == Outcome(m'.AddLast(o.isBuy, total).(lastTradePrice := price).AddCurr(o.isBuy, total),
                                         fills + [Fill(o.creator, Signed(o.isBuy, total))])
  {
  }

  /** The sweep keeps the book valid and every creator list it had, and adds none. */
  lemma SweepPlacedKeepsValid(m: Market, a: OrderId)
    requires Valid(m.book) && a in m.book.orders
    ensures Valid(SweepPlaced(m, a).market.book)
    ensures SweepPlaced(m, a).market.book.orderMap.Keys == m.book.orderMap.Keys
  {
    var tops := TopOf(m.book, !m.book.orders[a].isBuy);
    if |tops| == 0 {
      CancelKeepsValid(m.book, a);
    } else {
      SweepKeepsValid(m, a, tops, 0, 0, m.book.orders[a].currentQuant, 0, []);
    }
  }

  /** With the opposite side empty a market order is cancelled at once: both sides are as they were and no one is told of a fill. */
  lemma MarketOrderOnEmptySide(m: Market, o: Order)
    requires Valid(m.book) && o.id !in m.book.orders && |Side(m.book, !o.isBuy)| == 0
    ensures var r := MarketOrder(m, o, false);
            && Valid(r.market.book)
            && Gone(Place(m.book, o), r.market.book, o.id)
            && r.market.book.buyOrders == m.book.buyOrders && r.market.book.sellOrders == m.book.sellOrders
            && r.fills == []
  {
    PlaceKeepsValid(m.book, o);
    var b1 := Place(m.book, o);
    TopOfEmpty(b1, !o.isBuy);
    CancelKeepsValid(b1, o.id);
    PlaceThenCancel(m.book, o);
  }

  /**
   * A market order against a non-empty opposite side keeps the book valid,
   * its fills net to zero, the aggressor is told last, of the signed total,
   * which never exceeds the order's quantity, and the order keeps the rest.
   */
  lemma MarketOrderSweeps(m: Market, o: Order)
    requires Valid(m.book) && o.id !in m.book.orders && |Side(m.book, !o.isBuy)| > 0
    ensures var r := MarketOrder(m, o, false);
            && Valid(r.market.book)
            && Net(r.fills) == 0
            && |r.fills| > 0 && r.fills[|r.fills| - 1].agent == o.creator
            && Signed(o.isBuy, r.fills[|r.fills| - 1].volume) <= o.currentQuant
            && o.id in r.market.book.orders
            && r.market.book.orders[o.id].currentQuant == o.currentQuant - Signed(o.isBuy, r.fills[|r.fills| - 1].volume)
  {
    PlaceKeepsValid(m.book, o);
    TopOfEmpty(Place(m.book, o), !o.isBuy);
    assert Side(m.book, !o.isBuy)[0] in Side(Place(m.book, o), !o.isBuy);
    SweepPlacedKeepsValid(m.(book := Place(m.book, o)), o.id);
    SweepPlacedTrades(m.(book := Place(m.book, o)), o.id);
  }

  /** A sweep against a non-empty opposite side balances, and ends with the aggressor's fill of what it lost in quantity. */
  lemma SweepPlacedTrades(m: Market, a: OrderId)
    requires Valid(m.book) && a in m.book.orders && |TopOf(m.book, !m.book.orders[a].isBuy)| > 0
    ensures var o, r := m.book.orders[a], SweepPlaced(m, a);
            && Net(r.fills) == 0
            && |r.fills| > 0 && r.fills[|r.fills| - 1].agent == o.creator
            && Signed(o.isBuy, r.fills[|r.fills| - 1].volume) <= o.currentQuant
            && a in r.market.book.orders
            && r.market.book.orders[a].currentQuant == o.currentQuant - Signed(o.isBuy, r.fills[|r.fills| - 1].volume)
  {
    var o := m.book.orders[a];
    SweepFinal(m, o, TopOf(m.book, !o.isBuy));
  }

  /** The aggressor's own fill closes the sweep: the signed total. */
  lemma SweepFinal(m1: Market, o: Order, tops: seq<OrderId>)
    requires Valid(m1.book) && o.id in m1.book.orders && m1.book.orders[o.id] == o && AllHeld(m1.book, tops, o.id) && |tops| > 0
    ensures var s := Sweep(m1, o.id, tops, 0, 0, o.currentQuant, 0, []);
            && o.id in s.market.book.orders
            && Net(s.fills + [Fill(o.creator, Signed(o.isBuy, s.total))]) == 0
            && s.total <= o.currentQuant
            && s.market.book.orders[o.id].currentQuant == o.currentQuant - s.total
  {
    SweepKeepsValid(m1, o.id, tops, 0, 0, o.currentQuant, 0, []);
    SweepBalances(m1, o.id, tops, 0, 0, o.currentQuant, 0, []);
    NetAppend(Sweep(m1, o.id, tops, 0, 0, o.currentQuant, 0, []).fills,
              Fill(o.creator, Signed(o.isBuy, Sweep(m1, o.id, tops, 0, 0, o.currentQuant, 0, []).total)));
  }

  /** Cancelling an order right after placing it leaves both sides as they were. */
  lemma PlaceThenCancel(b: Book, o: Order)
    requires Valid(b) && o.id !in b.orders
    ensures && Cancel(Place(b, o), o.id).buyOrders == b.buyOrders
            && Cancel(Place(b, o), o.id).sellOrders == b.sellOrders
  {
    var reg := b.orders[o.id := o];
    assert o.id !in b.buyOrders && o.id !in b.sellOrders;
    if o.isBuy {
      RemoveInserted(HighFirst, reg, b.buyOrders, o.id);
      RemoveFirstCounts(b.sellOrders, o.id);
    } else {
      RemoveInserted(HighFirst, reg, b.sellOrders, o.id);
      RemoveFirstCounts(b.buyOrders, o.id);
    }
  }

  /**
   * modifyOrder as it should behave: the order takes its new price and
   * quantity and, if it rests on a side, is moved to its new place there.
   */
  function Reprice(b: Book, id: OrderId, price: int, quant: int): Book
    requires Known(b.orders, b.buyOrders) && Known(b.orders, b.sellOrders) && id in b.orders
  {
    RemoveFirstCounts(b.buyOrders, id);
    RemoveFirstCounts(b.sellOrders, id);
    var reg := b.orders[id := b.orders[id].SetPrice(price).SetQuant(quant)];
    Book(reg,
      if id in b.buyOrders then Insert(HighFirst, reg, RemoveFirst(b.buyOrders, id), id) else b.buyOrders,
      if id in b.sellOrders then Insert(HighFirst, reg, RemoveFirst(b.sellOrders, id), id) else b.sellOrders,
      b.orderMap)
  }

  /** modifyOrder as written: `setPrice` and `setQuant` on an order that stays where it was in its `TreeSet`. */
  function RepriceInPlace(b: Book, id: OrderId, price: int, quant: int): Book
    requires id in b.orders
  {
    b.(orders := b.orders[id := b.orders[id].SetPrice(price).SetQuant(quant)])
  }

  /**
   * As written, re-pricing a resting order leaves its side out of order:
   * with buys at 100 (ID 0) and 90 (ID 1), moving ID 1 to 110 leaves it
   * behind ID 0 though highestFirstComparator now puts it first.
   */
  lemma RepriceInPlaceUnsorts()
    ensures var b := Book(map[0 := Order(0, 7, 100, 5, 5, true), 1 := Order(1, 7, 90, 5, 5, true)],
                          [0, 1], [], map[7 := [0, 1]]);
            && Valid(b)
            && !Valid(RepriceInPlace(b, 1, 110, 5))
  {
    var b := Book(map[0 := Order(0, 7, 100, 5, 5, true), 1 := Order(1, 7, 90, 5, 5, true)],
                  [0, 1], [], map[7 := [0, 1]]);
    assert Sorted(HighFirst, b.orders, b.buyOrders) by {
      forall i, j | 0 <= i < j < 2
        ensures Before(HighFirst, b.orders[b.buyOrders[i]], b.orders[b.buyOrders[j]])
      {
        assert i == 0 && j == 1;
      }
    }
    var r := RepriceInPlace(b, 1, 110, 5);
    assert !Before(HighFirst, r.orders[r.buyOrders[0]], r.orders[r.buyOrders[1]]);
  }

  /**
   * The corrected re-pricing keeps the book valid: the order has its new
   * price and quantity, stays on exactly the sides it was on, and no other
   * order, side membership or list changes.
   */
  lemma RepriceKeepsValid(b: Book, id: OrderId, price: int, quant: int)
    requires Valid(b) && id in b.orders
    ensures Valid(Reprice(b, id, price, quant))
    ensures Reprice(b, id, price, quant).orders == b.orders[id := b.orders[id].SetPrice(price).SetQuant(quant)]
    ensures forall x :: (x in Reprice(b, id, price, quant).buyOrders <==> x in b.buyOrders)
                     && (x in Reprice(b, id, price, quant).sellOrders <==> x in b.sellOrders)
    ensures Reprice(b, id, price, quant).orderMap == b.orderMap
  {
    RepriceSide(b.orders, b.buyOrders, id, b.orders[id].SetPrice(price).SetQuant(quant));
    RepriceSide(b.orders, b.sellOrders, id, b.orders[id].SetPrice(price).SetQuant(quant));
  }

  /** Taking `id` out of a sorted side and inserting it again under its new key keeps the side sorted and its members. */
  lemma RepriceSide(reg: Registry, s: seq<OrderId>, id: OrderId, o: Order)
    requires KeyedById(reg) && Known(reg, s) && Sorted(HighFirst, reg, s) && id in reg && o.id == id
    ensures Known(reg[id := o], s)
    ensures id in s ==> Known(reg, RemoveFirst(s, id)) && Sorted(HighFirst, reg[id := o], Insert(HighFirst, reg[id := o], RemoveFirst(s, id), id))
    ensures id in s ==> forall x :: x in Insert(HighFirst, reg[id := o], RemoveFirst(s, id), id) <==> x in s
    ensures id !in s ==> Sorted(HighFirst, reg[id := o], s)
  {
    SortedNoDup(HighFirst, reg, s);
    RemoveFirstGone(s, id);
    RemoveFirstCounts(s, id);
    RemoveFirstSorted(HighFirst, reg, s, id);
    SortedStable(HighFirst, reg, reg[id := o], RemoveFirst(s, id));
    if id in s {
      InsertSorted(HighFirst, reg[id := o], RemoveFirst(s, id), id);
    } else {
      SortedStable(HighFirst, reg, reg[id := o], s);
    }
  }

  /**
   * modifyOrder on the engine's fields (with the corrected re-pricing): the
   * order is re-priced and then goes through willTrade and
   * `trade(Order, ArrayList)` like a new limit order.
   */
  function Modify(m: Market, id: OrderId, price: int, quant: int, starting: bool): (r: Outcome)
    requires Valid(m.book) && id in m.book.orders
  {
    RepriceKeepsValid(m.book, id, price, quant);
    var b1 := Reprice(m.book, id, price, quant);
    WillTradeCandidates(b1, id);
    LimitTrade(m.(book := b1), id, WillTrade(b1, b1.orders[id]), starting)
  }

  /**
   * What modifyOrder returns: whether the re-priced order traded, which
   * happens outside the starting period exactly when an opposite order
   * rests at the new price.
   */
  function ModifyTraded(b: Book, id: OrderId, price: int, quant: int, starting: bool): (r: bool)
    requires Valid(b) && id in b.orders
    ensures r <==> !starting && exists x :: x in Side(b, !b.orders[id].isBuy) && b.orders[x].price == price
  {
    RepriceKeepsValid(b, id, price, quant);
    var b1 := Reprice(b, id, price, quant);
    assert forall x :: x in Side(b, !b.orders[id].isBuy) ==> x != id && b1.orders[x] == b.orders[x];
    LimitTraded(WillTrade(b1, b1.orders[id]), starting)
  }

  /** Every outcome of `trade(Order, ArrayList)` keeps the book valid, and its fills cancel out. */
  lemma LimitTradeKeepsValid(m: Market, id: OrderId, cands: Option<seq<OrderId>>, starting: bool)
    requires Valid(m.book) && id in m.book.orders && Candidates(m.book, id, cands)
    ensures Valid(LimitTrade(m, id, cands, starting).market.book)
    ensures Net(LimitTrade(m, id, cands, starting).fills) == 0
    ensures LimitTrade(m, id, cands, starting).market.book.orderMap.Keys == m.book.orderMap.Keys
  {
    if cands.Some? {
      if starting {
        CancelKeepsValid(m.book, id);
      } else {
        LimitTradeFills(m, id, cands.value);
      }
    }
  }

  /** A modification keeps the book valid, its fills cancel out, and the order ends with its new price. */
  lemma ModifyKeepsValid(m: Market, id: OrderId, price: int, quant: int, starting: bool)
    requires Valid(m.book) && id in m.book.orders
    ensures Valid(Modify(m, id, price, quant, starting).market.book)
    ensures Net(Modify(m, id, price, quant, starting).fills) == 0
    ensures Modify(m, id, price, quant, starting).market.book.orders[id].price == price
  {
    RepriceKeepsValid(m.book, id, price, quant);
    WillTradeCandidates(Reprice(m.book, id, price, quant), id);
    LimitTradeKeepsValid(m.(book := Reprice(m.book, id, price, quant)), id,
      WillTrade(Reprice(m.book, id, price, quant), Reprice(m.book, id, price, quant).orders[id]), starting);
  }

  /**
   * getOldestOrder as written: the scan starts from the engine's clock
   * `time` instead of from no bound, so it only finds orders whose ID is
   * below `bound`, and of those the smallest.
   */
  function OldestBelow(s: seq<OrderId>, bound: int): (r: Option<OrderId>)
    ensures r.None? <==> forall x :: x in s ==> x >= bound
    ensures r.Some? ==> r.value in s && r.value < bound && forall x :: x in s ==> r.value <= x
    decreases |s|
  {
    if |s| == 0 then None
    else
      var prev := OldestBelow(s[..|s| - 1], bound);
      InitOrLast(s);
      var limit := if prev.Some? then prev.value else bound;
      if s[|s| - 1] < limit then
        assert s[|s| - 1] in s;
        Some(s[|s| - 1])
      else
        assert prev.Some? ==> prev.value in s;
        prev
  }

  /**
   * Order IDs count orders and the clock counts milliseconds, so an agent
   * can hold orders all newer than the current time: with the clock at 3,
   * an agent whose only order has ID 7 has no oldest order.
   */
  lemma OldestBelowMissesOrders()
    ensures OldestBelow([7], 3) == None
  {
  }

  /**
   * getBestBid (`buy`) or getBestAsk: both sides iterate best bid first, so
   * the best bid is the first buy order and the best ask the last sell
   * order; `None` (Java's `null`) when that side is empty.
   */
  function Best(b: Book, buy: bool): Option<OrderId> {
    var s := Side(b, buy);
    if |s| == 0 then None else if buy then Some(s[0]) else Some(s[|s| - 1])
  }

  /**
   * There is a best order exactly when the side is not empty. The best bid
   * is a buy order of the highest price, the oldest at that price; the best
   * ask is a sell order of the lowest price, the newest at that price.
   */
  lemma BestIsBest(b: Book, buy: bool)
    requires Valid(b)
    ensures Best(b, buy).None? <==> |Side(b, buy)| == 0
    ensures Best(b, buy).Some? ==> Best(b, buy).value in Side(b, buy) && b.orders[Best(b, buy).value].isBuy == buy
    ensures buy && Best(b, buy).Some? ==>
      forall y :: y in b.buyOrders && y != Best(b, buy).value ==>
        b.orders[y].price < b.orders[Best(b, buy).value].price
        || (b.orders[y].price == b.orders[Best(b, buy).value].price && y > Best(b, buy).value)
    ensures !buy && Best(b, buy).Some? ==>
      forall y :: y in b.sellOrders && y != Best(b, buy).value ==>
        b.orders[y].price > b.orders[Best(b, buy).value].price
        || (b.orders[y].price == b.orders[Best(b, buy).value].price && y < Best(b, buy).value)
  {
    var s := Side(b, buy);
    if |s| > 0 {
      if buy {
        forall y | y in s && y != s[0]
          ensures b.orders[y].price < b.orders[s[0]].price || (b.orders[y].price == b.orders[s[0]].price && y > s[0])
        {
          var j :| 0 <= j < |s| && s[j] == y;
          assert Before(HighFirst, b.orders[s[0]], b.orders[s[j]]);
        }
      } else {
        forall y | y in s && y != s[|s| - 1]
          ensures b.orders[y].price > b.orders[s[|s| - 1]].price || (b.orders[y].price == b.orders[s[|s| - 1]].price && y < s[|s| - 1])
        {
          var j :| 0 <= j < |s| && s[j] == y;
          assert Before(HighFirst, b.orders[s[j]], b.orders[s[|s| - 1]]);
        }
      }
    }
  }

  /** The oldest (smallest) ID of a collection, `None` when it is empty: what getOldestOrder is for. */
  function Oldest(s: seq<OrderId>): (r: Option<OrderId>)
    ensures r.None? <==> |s| == 0
    ensures r.Some? ==> r.value in s && forall x :: x in s ==> r.value <= x
    decreases |s|
  {
    if |s| == 0 then None
    else
      var prev := Oldest(s[..|s| - 1]);
      InitOrLast(s);
      if prev.None? || s[|s| - 1] < prev.value then
        assert s[|s| - 1] in s;
        Some(s[|s| - 1])
      else
        assert prev.value in s;
        prev
  }

  /** The scan as written agrees with the intended one only when the clock is past every ID of the list. */
  lemma {:induction false} OldestBelowAgrees(s: seq<OrderId>, bound: int)
    requires forall x :: x in s ==> x < bound
    ensures OldestBelow(s, bound) == Oldest(s)
    decreases |s|
  {
    if |s| > 0 {
      InitOrLast(s);
      var init := s[..|s| - 1];
      forall x | x in init
        ensures x < bound
      {
        assert x in s;
      }
      OldestBelowAgrees(init, bound);
    }
  }

  /** One more element of `s` extends its orders of a direction by that element when it has that direction. */
  lemma OfSideStep(reg: Registry, s: seq<OrderId>, k: nat, buy: bool)
    requires Known(reg, s) && k < |s|
    ensures OfSide(reg, s[..k + 1], buy) == OfSide(reg, s[..k], buy) + (if reg[s[k]].isBuy == buy then [s[k]] else [])
  {
    assert s[..k + 1][..k] == s[..k];
  }

  /** Cancelling one more order extends the cancellations by it. */
  lemma CancelEachStep(b: Book, ids: seq<OrderId>, id: OrderId)
    requires Valid(b) && Known(b.orders, ids) && id in b.orders
    ensures CancelEach(b, ids + [id]) == Cancel(CancelEach(b, ids), id)
  {
    assert (ids + [id])[..|ids|] == ids;
  }

  /**
   * One pass of cancelAllBuyOrders (`buy`) or cancelAllSellOrders over an
   * agent's original list `list0`: after the first `k` orders, the orders of
   * direction `buy` among them are cancelled and the agent's list holds the
   * others followed by the rest of `list0`. Cancelling the `k`-th order when
   * it has direction `buy`, and keeping it otherwise, extends both facts to
   * `k + 1`.
   */
  lemma CancelPass(b0: Book, list0: seq<OrderId>, k: nat, buy: bool, agent: AgentId, b: Book)
    requires Valid(b0) && Known(b0.orders, list0) && k < |list0|
    requires b == CancelEach(b0, OfSide(b0.orders, list0[..k], buy))
    requires agent in b.orderMap && b.orderMap[agent] == OfSide(b0.orders, list0[..k], !buy) + list0[k..]
    ensures list0[k] in b.orders && b.orders[list0[k]].isBuy == b0.orders[list0[k]].isBuy
    ensures |OfSide(b0.orders, list0[..k + 1], !buy)| ==
      |OfSide(b0.orders, list0[..k], !buy)| + (if b0.orders[list0[k]].isBuy == buy then 0 else 1)
    ensures b.orders[list0[k]].isBuy == buy ==>
      && Cancel(b, list0[k]) == CancelEach(b0, OfSide(b0.orders, list0[..k + 1], buy))
      && Cancel(b, list0[k]).orderMap[agent] == OfSide(b0.orders, list0[..k + 1], !buy) + list0[k + 1..]
    ensures b.orders[list0[k]].isBuy != buy ==>
      && b == CancelEach(b0, OfSide(b0.orders, list0[..k + 1], buy))
      && b.orderMap[agent] == OfSide(b0.orders, list0[..k + 1], !buy) + list0[k + 1..]
  {
    var id := list0[k];
    var done := OfSide(b0.orders, list0[..k], buy);
    var stays := OfSide(b0.orders, list0[..k], !buy);
    OfSideStep(b0.orders, list0, k, buy);
    OfSideStep(b0.orders, list0, k, !buy);
    SplitAt(list0, k);
    if b0.orders[id].isBuy == buy {
      assert OfSide(b0.orders, list0[..k + 1], buy) == done + [id];
      assert OfSide(b0.orders, list0[..k + 1], !buy) == stays;
      assert id !in stays;
      RemoveFirstAfter(stays, list0[k..], id);
      CancelEachStep(b0, done, id);
      assert id in b.orderMap[agent];
    } else {
      assert OfSide(b0.orders, list0[..k + 1], buy) == done;
      assert OfSide(b0.orders, list0[..k + 1], !buy) == stays + [id];
      ConcatAssoc(stays, id, list0[k + 1..]);
    }
  }

  lemma SplitAt(s: seq<OrderId>, k: nat)
    requires k < |s|
    ensures s[k..] == [s[k]] + s[k + 1..]
  {
  }

  lemma ConcatAssoc(a: seq<OrderId>, x: OrderId, c: seq<OrderId>)
    ensures a + ([x] + c) == (a + [x]) + c
  {
  }
}
