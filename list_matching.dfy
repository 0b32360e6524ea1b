/**
 * The earlier, list-based matching engine of JinSup/src/MatchingEngine.java,
 * over the values of its fields. One unsorted `allOrders` list holds the
 * resting orders of both sides in arrival order; each agent has its own
 * list; every sort the engine does is on a local copy.
 */
module ListMatching {
  import opened JavaInt
  import opened Optional
  import opened Orders
  import opened OrderBook
  import Matching
  import EngineState

  /** The order-handling fields: the order objects, the `allOrders` list and the per-agent lists. */
  datatype ListBook = ListBook(
    orders: Registry,
    allOrders: seq<OrderId>,
    orderMap: map<AgentId, seq<OrderId>>)

  /**
   * What the engine's code relies on: orders registered under their own
   * IDs, `allOrders` and each agent's list holding registered orders once
   * each, and every registered order's creator owning a list (so the
   * `orderMap.get(...)` of a removal never yields `null`).
   */
  predicate Sound(b: ListBook) {
    && KeyedById(b.orders)
    && Known(b.orders, b.allOrders) && NoDup(b.allOrders)
    && (forall x :: x in b.orders ==> b.orders[x].creator in b.orderMap)
    && (forall a :: a in b.orderMap ==> Known(b.orders, b.orderMap[a]) && NoDup(b.orderMap[a]))
  }

  /** The creator's list, empty when `orderMap` has no entry for it. */
  function ListOf(b: ListBook, agent: AgentId): seq<OrderId> {
    if agent in b.orderMap then b.orderMap[agent] else []
  }

  /** The order is registered and its creator has a list. */
  predicate Holds(b: ListBook, id: OrderId) {
    id in b.orders && b.orders[id].creator in b.orderMap
  }

  /** createOrder's bookkeeping: the order goes to the end of `allOrders` and of its creator's list, created when absent. */
  function Create(b: ListBook, o: Order): ListBook {
    ListBook(b.orders[o.id := o], b.allOrders + [o.id], b.orderMap[o.creator := ListOf(b, o.creator) + [o.id]])
  }

  /** cancelOrder: out of `allOrders` and its creator's list, with quantity 0; only quantities change in the registry. */
  function Cancel(b: ListBook, id: OrderId): (r: ListBook)
    requires Holds(b, id)
    ensures Matching.OnlyQuantities(b.orders, r.orders) && r.orderMap.Keys == b.orderMap.Keys
  {
    var o := b.orders[id];
    ListBook(b.orders[id := o.SetQuant(0)],
      RemoveFirst(b.allOrders, id),
      b.orderMap[o.creator := RemoveFirst(b.orderMap[o.creator], id)])
  }

  /** `setQuant` on an order the engine holds: the lists stay, only a quantity changes. */
  function SetQuantOf(b: ListBook, id: OrderId, q: int): (r: ListBook)
    requires id in b.orders
    ensures Matching.OnlyQuantities(b.orders, r.orders) && r.orderMap == b.orderMap && r.allOrders == b.allOrders
  {
    b.(orders := b.orders[id := b.orders[id].SetQuant(q)])
  }

  /** A fresh order joins `allOrders` and its creator's list; the book stays sound and gains exactly that order. */
  lemma CreateKeepsSound(b: ListBook, o: Order)
    requires Sound(b) && o.id !in b.orders
    ensures Sound(Create(b, o))
    ensures Create(b, o).orders.Keys == b.orders.Keys + {o.id}
    ensures forall x :: x in Create(b, o).allOrders <==> x in b.allOrders || x == o.id
  {
    var r := Create(b, o);
    assert o.id !in b.allOrders;
    forall i, j | 0 <= i < j < |r.allOrders|
      ensures r.allOrders[i] != r.allOrders[j]
    {
      if j == |b.allOrders| {
        assert r.allOrders[i] in b.allOrders;
      }
    }
    var l := ListOf(b, o.creator);
    assert o.id !in l;
    forall i, j | 0 <= i < j < |l + [o.id]|
      ensures (l + [o.id])[i] != (l + [o.id])[j]
    {
      if j == |l| {
        assert (l + [o.id])[i] in l;
      }
    }
  }

  /**
   * Cancelling takes the order out of `allOrders` and its creator's list
   * and zeroes its quantity; every other order keeps its fields and its
   * memberships, and the book stays sound.
   */
  lemma CancelKeepsSound(b: ListBook, id: OrderId)
    requires Sound(b) && id in b.orders
    ensures Sound(Cancel(b, id))
    ensures Cancel(b, id).orders[id].currentQuant == 0
    ensures id !in Cancel(b, id).allOrders && id !in Cancel(b, id).orderMap[b.orders[id].creator]
    ensures forall x :: x in b.orders && x != id ==> Cancel(b, id).orders[x] == b.orders[x]
    ensures forall x :: x != id ==> (x in Cancel(b, id).allOrders <==> x in b.allOrders)
    ensures forall a, x :: a in b.orderMap && x != id ==> (x in Cancel(b, id).orderMap[a] <==> x in b.orderMap[a])
  {
    var c := b.orders[id].creator;
    RemoveFirstGone(b.allOrders, id);
    RemoveFirstCounts(b.allOrders, id);
    RemoveFirstGone(b.orderMap[c], id);
    RemoveFirstCounts(b.orderMap[c], id);
  }

  /**
   * An order created and then cancelled leaves `allOrders` and every list
   * as they were, except that its creator now has a list (empty if it had
   * none); the order itself is registered with quantity 0.
   */
  lemma CreateThenCancel(b: ListBook, o: Order)
    requires Sound(b) && o.id !in b.orders
    ensures Holds(Create(b, o), o.id)
    ensures Cancel(Create(b, o), o.id).allOrders == b.allOrders
    ensures Cancel(Create(b, o), o.id).orderMap == b.orderMap[o.creator := ListOf(b, o.creator)]
    ensures Cancel(Create(b, o), o.id).orders == b.orders[o.id := o.SetQuant(0)]
    ensures o.creator in b.orderMap ==> Cancel(Create(b, o), o.id).orderMap == b.orderMap
  {
    assert o.id !in b.allOrders;
    assert o.id !in ListOf(b, o.creator);
    assert RemoveFirst([o.id], o.id) == [];
    RemoveFirstAfter(b.allOrders, [o.id], o.id);
    RemoveFirstAfter(ListOf(b, o.creator), [o.id], o.id);
    assert RemoveFirst(ListOf(b, o.creator) + [o.id], o.id) == ListOf(b, o.creator);
  }

  /**
   * The fields the trading methods update beside the book: the last trade
   * price and the aggressor volumes of the last and the current period.
   */
  datatype ListMarket = ListMarket(
    book: ListBook,
    lastTradePrice: int,
    lastAgVolumeBuySide: int,
    lastAgVolumeSellSide: int,
    currAgVolumeBuySide: int,
    currAgVolumeSellSide: int)
  {
    /** `lastAgVolumeBuySide += v` when `buy`, else `lastAgVolumeSellSide += v`. */
    function AddLast(buy: bool, v: int): ListMarket {
      if buy then this.(lastAgVolumeBuySide := lastAgVolumeBuySide + v)
      else this.(lastAgVolumeSellSide := lastAgVolumeSellSide + v)
    }

    /** `currAgVolumeBuySide += v` when `buy`, else `currAgVolumeSellSide += v` (logAggressiveTrader, logExtraTrades). */
    function AddCurr(buy: bool, v: int): ListMarket {
      if buy then this.(currAgVolumeBuySide := currAgVolumeBuySide + v)
      else this.(currAgVolumeSellSide := currAgVolumeSellSide + v)
    }
  }

  /** What the private `trade(Order, Order)` leaves behind and returns. */
  datatype ListPaired = ListPaired(market: ListMarket, volume: int)

  /**
   * The private `trade(Order, Order)` of aggressor `a` against passive `p`,
   * as written: the trade happens at the passive price; with equal
   * quantities both orders are removed and zeroed and that quantity is
   * returned; otherwise the larger order is set to the difference, the
   * smaller is removed and zeroed, and the difference is returned.
   * logExtraTrades adds the returned volume to the passive side's current
   * aggressor volume.
   */
  function PairAsWritten(m: ListMarket, a: OrderId, p: OrderId): (r: ListPaired)
    requires Holds(m.book, a) && Holds(m.book, p)
    ensures Matching.OnlyQuantities(m.book.orders, r.market.book.orders)
    ensures r.market.book.orderMap.Keys == m.book.orderMap.Keys
  {
    var (b', v) := PairBook(m.book, a, p);
    var o2 := m.book.orders[p];
    ListPaired(m.(book := b', lastTradePrice := o2.price).AddCurr(o2.isBuy, v), v)
  }

  /** The book the pairwise trade leaves behind as written, and the volume it returns. */
  function PairBook(b: ListBook, a: OrderId, p: OrderId): (r: (ListBook, int))
    requires Holds(b, a) && Holds(b, p)
    ensures Matching.OnlyQuantities(b.orders, r.0.orders) && r.0.orderMap.Keys == b.orderMap.Keys
  {
    var q1, q2 := b.orders[a].currentQuant, b.orders[p].currentQuant;
    if q1 == q2 then (Cancel(Cancel(b, a), p), q1)
    else if q1 > q2 then (Cancel(SetQuantOf(b, a, q1 - q2), p), q1 - q2)
    else (Cancel(SetQuantOf(b, p, q2 - q1), a), q2 - q1)
  }

  /**
   * As written, the pairwise trade moves the right shares (each order loses
   * min(q1, q2), the smaller one leaving the book, both when equal) but,
   * unless the quantities are equal, returns their difference rather than
   * the min(q1, q2) shares that changed hands.
   */
  lemma PairAsWrittenMisreports(m: ListMarket, a: OrderId, p: OrderId)
    requires Sound(m.book) && Holds(m.book, a) && Holds(m.book, p) && a != p
    ensures var q1, q2 := m.book.orders[a].currentQuant, m.book.orders[p].currentQuant;
            var r := PairAsWritten(m, a, p);
            var matched := if q1 <= q2 then q1 else q2;
            && q1 - r.market.book.orders[a].currentQuant == matched
            && q2 - r.market.book.orders[p].currentQuant == matched
            && (q1 <= q2 ==> a !in r.market.book.allOrders)
            && (q2 <= q1 ==> p !in r.market.book.allOrders)
            && r.volume == (if q1 == q2 then q1 else if q1 > q2 then q1 - q2 else q2 - q1)
            && r.market.lastTradePrice == m.book.orders[p].price
  {
    var b := m.book;
    var q1, q2 := b.orders[a].currentQuant, b.orders[p].currentQuant;
    if q1 == q2 {
      CancelKeepsSound(b, a);
      CancelKeepsSound(Cancel(b, a), p);
    } else if q1 > q2 {
      CancelKeepsSound(SetQuantOf(b, a, q1 - q2), p);
    } else {
      CancelKeepsSound(SetQuantOf(b, p, q2 - q1), a);
    }
  }

  /** An aggressor buying 5 shares from a resting sell of 3 is told it traded 2, though 3 shares changed hands. */
  lemma PairReportsDifference()
    ensures var buy := Order(1, 7, 10000, 5, 5, true);
            var sell := Order(2, 8, 10000, 3, 3, false);
            var b := ListBook(map[1 := buy, 2 := sell], [1, 2], map[7 := [1], 8 := [2]]);
            var r := PairAsWritten(ListMarket(b, 0, 0, 0, 0, 0), 1, 2);
            && r.volume == 2
            && r.market.book.orders[1].currentQuant == 2
            && r.market.book.orders[2].currentQuant == 0
  {
  }

  /** The pairwise trade keeps the book sound. */
  lemma PairKeepsSound(m: ListMarket, a: OrderId, p: OrderId)
    requires Holds(m.book, a) && Holds(m.book, p)
    ensures Sound(m.book) ==> Sound(PairAsWritten(m, a, p).market.book)
  {
    if !Sound(m.book) {
      return;
    }
    var b := m.book;
    var q1, q2 := b.orders[a].currentQuant, b.orders[p].currentQuant;
    if q1 == q2 {
      CancelKeepsSound(b, a);
      CancelKeepsSound(Cancel(b, a), p);
    } else if q1 > q2 {
      CancelKeepsSound(SetQuantOf(b, a, q1 - q2), p);
    } else {
      CancelKeepsSound(SetQuantOf(b, p, q2 - q1), a);
    }
  }

  /** The orders of `s` on the side opposite to `o` at exactly `o`'s price, in the order of `s`. */
  function SamePriced(reg: Registry, s: seq<OrderId>, o: Order): (r: seq<OrderId>)
    requires Known(reg, s)
    ensures Known(reg, r)
    ensures forall x :: x in r <==> x in s && reg[x].isBuy != o.isBuy && reg[x].price == o.price
    decreases |s|
  {
    if |s| == 0 then []
    else
      var x := s[|s| - 1];
      assert s == s[..|s| - 1] + [x];
      SamePriced(reg, s[..|s| - 1], o) + (if reg[x].isBuy != o.isBuy && reg[x].price == o.price then [x] else [])
  }

  /** One more order of `s` looked at by willTrade's loop. */
  lemma SamePricedStep(reg: Registry, s: seq<OrderId>, i: nat, o: Order)
    requires Known(reg, s) && i < |s|
    ensures SamePriced(reg, s[..i + 1], o) ==
      SamePriced(reg, s[..i], o) + (if reg[s[i]].isBuy != o.isBuy && reg[s[i]].price == o.price then [s[i]] else [])
  {
    assert s[..i + 1][..i] == s[..i];
  }

  /**
   * willTrade: `None` (Java's `null`) when no order of `allOrders` on the
   * opposite side has exactly the incoming price, else all such orders, in
   * the order of `allOrders`.
   */
  function WillTrade(b: ListBook, o: Order): (r: Option<seq<OrderId>>)
    requires Known(b.orders, b.allOrders)
    ensures r.None? <==> forall x :: x in b.allOrders ==> b.orders[x].isBuy == o.isBuy || b.orders[x].price != o.price
    ensures r.Some? ==> |r.value| > 0 && Known(b.orders, r.value)
    ensures r.Some? ==> forall x :: x in r.value <==> x in b.allOrders && b.orders[x].isBuy != o.isBuy && b.orders[x].price == o.price
  {
    var same := SamePriced(b.orders, b.allOrders, o);
    if |same| == 0 then None
    else
      assert same[0] in same;
      Some(same)
  }

  /** The engine's fields after an operation, and the `setLastOrderTraded(true, volume)` calls it made, in order. */
  datatype ListOutcome = ListOutcome(market: ListMarket, fills: seq<Matching.Fill>)

  /** What `trade(Order, ArrayList)` may be handed: no list, or a non-empty list of orders the engine holds. */
  predicate Candidates(b: ListBook, cands: Option<seq<OrderId>>) {
    cands.Some? ==> |cands.value| > 0 && forall i :: 0 <= i < |cands.value| ==> Holds(b, cands.value[i])
  }

  /** Every list willTrade returns on a sound book is a valid argument for `trade(Order, ArrayList)`. */
  lemma WillTradeCandidates(b: ListBook, o: Order)
    requires Sound(b)
    ensures Candidates(b, WillTrade(b, o))
  {
    var r := WillTrade(b, o);
    if r.Some? {
      forall i | 0 <= i < |r.value|
        ensures Holds(b, r.value[i])
      {
        assert r.value[i] in r.value;
      }
    }
  }

  /**
   * `trade(Order, ArrayList)`: no candidates leaves everything alone; in
   * the starting period the incoming order is cancelled; otherwise the last
   * trade price becomes the first candidate's, the order trades against the
   * candidate highestFirstComparator puts first, the aggressor's side gets
   * the returned volume as last and current aggressor volume, and both
   * agents are told of that same volume.
   */
  function LimitTrade(m: ListMarket, id: OrderId, cands: Option<seq<OrderId>>, starting: bool): (r: ListOutcome)
    requires KeyedById(m.book.orders) && Holds(m.book, id) && Candidates(m.book, cands)
  {
    match cands
    case None => ListOutcome(m, [])
    case Some(c) =>
      if starting then ListOutcome(m.(book := Cancel(m.book, id)), [])
      else Matched(m, id, c)
  }

  /** The trading case of `trade(Order, ArrayList)`, with candidates `c` and the starting period over. */
  function Matched(m: ListMarket, id: OrderId, c: seq<OrderId>): (r: ListOutcome)
    requires KeyedById(m.book.orders) && Holds(m.book, id) && Candidates(m.book, Some(c))
  {
    var reg := m.book.orders;
    var o := reg[id];
    assert Known(reg, c) by {
      forall x | x in c
        ensures x in reg
      {
        var i :| 0 <= i < |c| && c[i] == x;
      }
    }
    var p := Least(HighFirst, reg, c);
    assert Holds(m.book, p) by {
      var i :| 0 <= i < |c| && c[i] == p;
    }
    var t := PairAsWritten(m.(lastTradePrice := reg[c[0]].price), id, p);
    ListOutcome(t.market.AddLast(o.isBuy, t.volume).AddCurr(o.isBuy, t.volume),
                [Matching.Fill(o.creator, t.volume), Matching.Fill(reg[p].creator, t.volume)])
  }

  /** The trading case unfolded, for a caller that has computed the passive order and the pairwise trade itself. */
  lemma MatchedIs(m: ListMarket, id: OrderId, c: seq<OrderId>, p: OrderId, t: ListPaired)
    requires KeyedById(m.book.orders) && Holds(m.book, id) && Candidates(m.book, Some(c))
    requires Known(m.book.orders, c) && p == Least(HighFirst, m.book.orders, c) && Holds(m.book, p)
    requires t == PairAsWritten(m.(lastTradePrice := m.book.orders[c[0]].price), id, p)
    ensures Matched(m, id, c) == ListOutcome(
      t.market.AddLast(m.book.orders[id].isBuy, t.volume).AddCurr(m.book.orders[id].isBuy, t.volume),
      [Matching.Fill(m.book.orders[id].creator, t.volume), Matching.Fill(m.book.orders[p].creator, t.volume)])
  {
  }

  /**
   * A limit trade keeps the book sound. When it trades, the passive order
   * is the oldest candidate at the highest price, both agents are told of
   * the volume the pairwise trade returns, and that volume goes to the
   * aggressor's side as last and current aggressor volume.
   */
  lemma LimitTradeKeepsSound(m: ListMarket, id: OrderId, cands: Option<seq<OrderId>>, starting: bool)
    requires Sound(m.book) && id in m.book.orders && Candidates(m.book, cands)
    ensures Sound(LimitTrade(m, id, cands, starting).market.book)
    ensures cands.None? || starting ==> LimitTrade(m, id, cands, starting).fills == []
    ensures cands.Some? && !starting ==>
      var c := cands.value;
      var reg := m.book.orders;
      var r := LimitTrade(m, id, cands, starting);
      exists p ::
        && p in c
        && (forall x :: x in c && x != p ==> reg[p].price > reg[x].price || (reg[p].price == reg[x].price && p < x))
        && var t := PairAsWritten(m.(lastTradePrice := reg[c[0]].price), id, p);
           && r.fills == [Matching.Fill(reg[id].creator, t.volume), Matching.Fill(reg[p].creator, t.volume)]
           && r.market == t.market.AddLast(reg[id].isBuy, t.volume).AddCurr(reg[id].isBuy, t.volume)
  {
    match cands
    case None =>
    case Some(c) =>
      var reg := m.book.orders;
      if starting {
        CancelKeepsSound(m.book, id);
      } else {
        assert Known(reg, c) by {
          forall x | x in c
            ensures x in reg
          {
            var i :| 0 <= i < |c| && c[i] == x;
          }
        }
        var p := Least(HighFirst, reg, c);
        assert Holds(m.book, p) by {
          var i :| 0 <= i < |c| && c[i] == p;
        }
        LeastIsLeast(HighFirst, reg, c);
        PairKeepsSound(m.(lastTradePrice := reg[c[0]].price), id, p);
      }
  }

  /**
   * createOrder: the order joins `allOrders` and its creator's list; a
   * market order stops there, a limit order is handed to
   * `trade(Order, ArrayList)` with what willTrade finds for it.
   */
  function CreateOrder(m: ListMarket, o: Order, market: bool, starting: bool): (r: ListOutcome)
    requires Sound(m.book) && o.id !in m.book.orders
  {
    CreateKeepsSound(m.book, o);
    var m1 := m.(book := Create(m.book, o));
    WillTradeCandidates(m1.book, o);
    if market then ListOutcome(m1, [])
    else LimitTrade(m1, o.id, WillTrade(m1.book, o), starting)
  }

  /** What createOrder returns: false for a market order, else what `trade(Order, ArrayList)` returns. */
  function CreateTraded(b: ListBook, o: Order, market: bool, starting: bool): (r: bool)
    requires Sound(b) && o.id !in b.orders
    ensures r <==> !market && !starting
                   && exists x :: x in b.allOrders && b.orders[x].isBuy != o.isBuy && b.orders[x].price == o.price
  {
    CreateKeepsSound(b, o);
    var b1 := Create(b, o);
    assert forall x :: x in b.allOrders ==> x != o.id && b1.orders[x] == b.orders[x];
    assert b1.allOrders == b.allOrders + [o.id];
    if market then false else Matching.LimitTraded(WillTrade(Create(b, o), o), starting)
  }

  /** A market order is only recorded: no matching, no fills, nothing else changes, and createOrder returns false. */
  lemma CreateOrderRests(m: ListMarket, o: Order, starting: bool)
    requires Sound(m.book) && o.id !in m.book.orders
    ensures CreateOrder(m, o, true, starting) == ListOutcome(m.(book := Create(m.book, o)), [])
    ensures !CreateTraded(m.book, o, true, starting)
  {
  }

  /** createOrder keeps the book sound, and the new order stays registered. */
  lemma CreateOrderKeepsSound(m: ListMarket, o: Order, market: bool, starting: bool)
    requires Sound(m.book) && o.id !in m.book.orders
    ensures Sound(CreateOrder(m, o, market, starting).market.book)
    ensures o.id in CreateOrder(m, o, market, starting).market.book.orders
  {
    CreateKeepsSound(m.book, o);
    var m1 := m.(book := Create(m.book, o));
    WillTradeCandidates(m1.book, o);
    if !market {
      LimitTradeKeepsSound(m1, o.id, WillTrade(m1.book, o), starting);
    }
  }

  /** modifyOrder's updates: the order takes the new price and the new quantity. */
  function Reprice(b: ListBook, id: OrderId, price: int, quant: int): ListBook
    requires id in b.orders
  {
    b.(orders := b.orders[id := b.orders[id].SetPrice(price).SetQuant(quant)])
  }

  /** Re-pricing an order keeps the book sound: `allOrders` is unsorted, so nothing needs re-ordering. */
  lemma RepriceKeepsSound(b: ListBook, id: OrderId, price: int, quant: int)
    requires Sound(b) && id in b.orders
    ensures Sound(Reprice(b, id, price, quant))
    ensures Reprice(b, id, price, quant).allOrders == b.allOrders && Reprice(b, id, price, quant).orderMap == b.orderMap
  {
  }

  /**
   * modifyOrder: the order takes the new price and quantity, then is handed
   * to `trade(Order, ArrayList)` with what willTrade finds for it.
   */
  function Modify(m: ListMarket, id: OrderId, price: int, quant: int, starting: bool): (r: ListOutcome)
    requires Sound(m.book) && id in m.book.orders
  {
    RepriceKeepsSound(m.book, id, price, quant);
    var m1 := m.(book := Reprice(m.book, id, price, quant));
    WillTradeCandidates(m1.book, m1.book.orders[id]);
    LimitTrade(m1, id, WillTrade(m1.book, m1.book.orders[id]), starting)
  }

  /** What modifyOrder returns. */
  function ModifyTraded(b: ListBook, id: OrderId, price: int, quant: int, starting: bool): (r: bool)
    requires Sound(b) && id in b.orders
    ensures r <==> !starting
                   && exists x :: x in b.allOrders && b.orders[x].isBuy != b.orders[id].isBuy && b.orders[x].price == price
  {
    RepriceKeepsSound(b, id, price, quant);
    var b1 := Reprice(b, id, price, quant);
    assert forall x :: x in b.allOrders && b.orders[x].isBuy != b.orders[id].isBuy ==> x != id && b1.orders[x] == b.orders[x];
    Matching.LimitTraded(WillTrade(b1, b1.orders[id]), starting)
  }

  /** modifyOrder keeps the book sound. */
  lemma ModifyKeepsSound(m: ListMarket, id: OrderId, price: int, quant: int, starting: bool)
    requires Sound(m.book) && id in m.book.orders
    ensures Sound(Modify(m, id, price, quant, starting).market.book)
  {
    RepriceKeepsSound(m.book, id, price, quant);
    var m1 := m.(book := Reprice(m.book, id, price, quant));
    WillTradeCandidates(m1.book, m1.book.orders[id]);
    LimitTradeKeepsSound(m1, id, WillTrade(m1.book, m1.book.orders[id]), starting);
  }

  /**
   * One pass of topBuyOrders' loop: fewer than ten kept, the buy order is
   * added; with ten kept, it replaces the tenth when the instance `compare`
   * puts it first (a higher price, or the same price and a newer ID); each
   * change is followed by a sort with highestFirstComparator.
   */
  function AdmitBuy(reg: Registry, top: seq<OrderId>, x: OrderId): (r: seq<OrderId>)
    requires Known(reg, top) && x in reg
    ensures Known(reg, r)
    ensures forall y :: y in r ==> y == x || y in top
    ensures |top| <= Matching.TopCount ==> |r| <= Matching.TopCount
  {
    if |top| < Matching.TopCount then Insert(HighFirst, reg, top, x)
    else if |top| > 0 && NewestBefore(reg[x], reg[top[|top| - 1]]) then Insert(HighFirst, reg, top[..|top| - 1], x)
    else top
  }

  /** The list topBuyOrders' loop builds from the buy orders `s`. */
  function TopBuys(reg: Registry, s: seq<OrderId>): (r: seq<OrderId>)
    requires Known(reg, s)
    ensures Known(reg, r)
    ensures forall y :: y in r ==> y in s
    ensures |r| <= Matching.TopCount
    decreases |s|
  {
    if |s| == 0 then []
    else AdmitBuy(reg, TopBuys(reg, s[..|s| - 1]), s[|s| - 1])
  }

  /**
   * `t` holds min(|s|, k) orders of `s` sorted by highestFirstComparator,
   * all of `s` when there are fewer than `k`, and no order of `s` left out
   * has a higher price than one kept.
   */
  predicate HighestK(reg: Registry, s: seq<OrderId>, t: seq<OrderId>, k: nat)
    requires Known(reg, s) && Known(reg, t)
  {
    && Sorted(HighFirst, reg, t)
    && (forall y :: y in t ==> y in s)
    && |t| == (if |s| < k then |s| else k)
    && (|t| < k ==> forall y :: y in s ==> y in t)
    && (forall y, z :: y in s && y !in t && z in t ==> reg[y].price <= reg[z].price)
  }

  lemma BuyGrows(reg: Registry, s: seq<OrderId>, t: seq<OrderId>, x: OrderId)
    requires KeyedById(reg) && Known(reg, s) && Known(reg, t) && x in reg && x !in s
    requires HighestK(reg, s, t, Matching.TopCount) && |t| < Matching.TopCount
    ensures HighestK(reg, s + [x], AdmitBuy(reg, t, x), Matching.TopCount)
  {
    var r := Insert(HighFirst, reg, t, x);
    assert AdmitBuy(reg, t, x) == r;
    assert x !in t;
    InsertSorted(HighFirst, reg, t, x);
    assert forall y :: y in r <==> y in s + [x];
  }

  lemma BuyReplaces(reg: Registry, s: seq<OrderId>, t: seq<OrderId>, x: OrderId)
    requires KeyedById(reg) && Known(reg, s) && Known(reg, t) && x in reg && x !in s
    requires HighestK(reg, s, t, Matching.TopCount) && |t| >= Matching.TopCount
    requires NewestBefore(reg[x], reg[t[|t| - 1]])
    ensures HighestK(reg, s + [x], AdmitBuy(reg, t, x), Matching.TopCount)
  {
    var last := t[|t| - 1];
    var keep := t[..|t| - 1];
    var r := Insert(HighFirst, reg, keep, x);
    assert AdmitBuy(reg, t, x) == r;
    assert t == keep + [last];
    assert x !in t;
    SortedNoDup(HighFirst, reg, t);
    assert last !in keep;
    assert Sorted(HighFirst, reg, keep);
    InsertSorted(HighFirst, reg, keep, x);
    assert forall z :: z in keep ==> reg[z].price >= reg[last].price by {
      forall z | z in keep
        ensures reg[z].price >= reg[last].price
      {
        var i :| 0 <= i < |keep| && keep[i] == z;
        assert HighBefore(reg[t[i]], reg[t[|t| - 1]]);
      }
    }
    forall y, z | y in s + [x] && y !in r && z in r
      ensures reg[y].price <= reg[z].price
    {
      if y != last {
        assert y in s && y !in t;
        if z != x {
          assert z in t;
        }
      }
    }
  }

  lemma BuySkips(reg: Registry, s: seq<OrderId>, t: seq<OrderId>, x: OrderId)
    requires KeyedById(reg) && Known(reg, s) && Known(reg, t) && x in reg && x !in s
    requires HighestK(reg, s, t, Matching.TopCount) && |t| >= Matching.TopCount
    requires !NewestBefore(reg[x], reg[t[|t| - 1]])
    ensures HighestK(reg, s + [x], AdmitBuy(reg, t, x), Matching.TopCount)
  {
    var last := t[|t| - 1];
    forall y, z | y in s + [x] && y !in t && z in t
      ensures reg[y].price <= reg[z].price
    {
      if y == x {
        var i :| 0 <= i < |t| && t[i] == z;
        if i < |t| - 1 {
          assert HighBefore(reg[t[i]], reg[t[|t| - 1]]);
        }
      } else {
        assert y in s;
      }
    }
  }

  /** topBuyOrders' loop keeps at most ten buy orders, sorted, none left out priced above one kept. */
  lemma {:induction false} TopBuysAreHighest(reg: Registry, s: seq<OrderId>)
    requires KeyedById(reg) && Known(reg, s) && NoDup(s)
    ensures HighestK(reg, s, TopBuys(reg, s), Matching.TopCount)
  {
    if |s| > 0 {
      var n := |s| - 1;
      var s' := s[..n];
      var x := s[n];
      assert s == s' + [x];
      assert x !in s';
      TopBuysAreHighest(reg, s');
      var t := TopBuys(reg, s');
      if |t| < Matching.TopCount {
        BuyGrows(reg, s', t, x);
      } else if NewestBefore(reg[x], reg[t[|t| - 1]]) {
        BuyReplaces(reg, s', t, x);
      } else {
        BuySkips(reg, s', t, x);
      }
    }
  }

  /** An order that comes after every order of `s` is inserted at the end. */
  lemma {:induction false} InsertLast(key: Key, reg: Registry, s: seq<OrderId>, x: OrderId)
    requires Known(reg, s) && x in reg
    requires forall y :: y in s ==> Before(key, reg[y], reg[x])
    ensures Insert(key, reg, s, x) == s + [x]
  {
    if |s| > 0 {
      assert s[0] in s;
      BeforeIsStrictTotal(key, reg[s[0]], reg[x], reg[x]);
      InsertLast(key, reg, s[1..], x);
      assert s == [s[0]] + s[1..];
    }
  }

  /** Up to ten buy orders met in highestFirstComparator order are all kept, in that order. */
  lemma {:induction false} TopBuysOfSorted(reg: Registry, s: seq<OrderId>)
    requires Known(reg, s) && Sorted(HighFirst, reg, s) && |s| <= Matching.TopCount
    ensures TopBuys(reg, s) == s
  {
    if |s| > 0 {
      var n := |s| - 1;
      TopBuysOfSorted(reg, s[..n]);
      forall y | y in s[..n]
        ensures Before(HighFirst, reg[y], reg[s[n]])
      {
        var i :| 0 <= i < n && s[..n][i] == y;
      }
      InsertLast(HighFirst, reg, s[..n], s[n]);
      assert s[..n] + [s[n]] == s;
    }
  }

  /**
   * Eleven buy orders met in ID order, IDs 0 to 10: IDs 0 to 7 at 200
   * cents, IDs 8 to 10 at 100 cents.
   */
  predicate TieCase(reg: Registry, s: seq<OrderId>) {
    && KeyedById(reg) && Known(reg, s) && |s| == 11
    && (forall i :: 0 <= i < |s| ==> s[i] == i)
    && (forall i :: 0 <= i < |s| ==> reg[s[i]].price == if i < 8 then 200 else 100)
  }

  /** One such book: every order placed by agent 0 for one share. */
  function TieRegistry(): Registry {
    map i | i in TieIds() :: Order(i, 0, if i < 8 then 200 else 100, 1, 1, true)
  }

  function TieIds(): set<OrderId> {
    {0, 1, 2, 3, 4, 5, 6, 7, 8, 9, 10}
  }

  lemma TieCaseExists()
    ensures TieCase(TieRegistry(), [0, 1, 2, 3, 4, 5, 6, 7, 8, 9, 10])
  {
  }

  /**
   * As written, topBuyOrders admits with the instance `compare` (newest
   * first at one price) but sorts and evicts with highestFirstComparator
   * (oldest first). On `TieCase` the first ten are kept; order 10, newer
   * than order 9 at one price, evicts it, and the older order 8 stays. The
   * result is neither the ten most recent first (which drop 8) nor the ten
   * oldest first (which drop 10).
   */
  lemma TopBuysTieKeepsNeither(reg: Registry, s: seq<OrderId>)
    requires TieCase(reg, s)
    ensures TopBuys(reg, s) == s[..9] + [s[10]]
    ensures !LeastK(NewFirst, reg, s, TopBuys(reg, s), Matching.TopCount)
    ensures !LeastK(HighFirst, reg, s, TopBuys(reg, s), Matching.TopCount)
  {
    var ten := s[..10];
    forall i, j | 0 <= i < j < |ten|
      ensures Before(HighFirst, reg[ten[i]], reg[ten[j]])
    {
      assert ten[i] == s[i] && ten[j] == s[j];
    }
    TopBuysOfSorted(reg, ten);
    TopBuysAppend(reg, ten, s[10]);
    assert ten + [s[10]] == s;
    assert NewestBefore(reg[s[10]], reg[ten[9]]);
    var nine := ten[..9];
    assert AdmitBuy(reg, ten, s[10]) == Insert(HighFirst, reg, nine, s[10]);
    forall y | y in nine
      ensures Before(HighFirst, reg[y], reg[s[10]])
    {
      var i :| 0 <= i < 9 && nine[i] == y;
      assert y == s[i];
    }
    InsertLast(HighFirst, reg, nine, s[10]);
    assert nine == s[..9];
    var kept := TopBuys(reg, s);
    assert kept[0] == s[0] && kept[1] == s[1] && !Before(NewFirst, reg[s[0]], reg[s[1]]);
    assert s[9] !in kept by {
      forall k | 0 <= k < |kept|
        ensures kept[k] != s[9]
      {
        if k < 9 { assert kept[k] == s[k]; } else { assert kept[k] == s[10]; }
      }
    }
    assert kept[9] == s[10] && !Before(HighFirst, reg[s[10]], reg[s[9]]);
  }

  /**
   * topBuyOrders as documented ("sorted by price (highest) and time of
   * order creation (most recent)"): the instance `compare` both admits and
   * orders, as `pollLast`/`add` on one comparator would.
   */
  function TopBuysNewestFirst(reg: Registry, s: seq<OrderId>): (r: seq<OrderId>)
    requires Known(reg, s)
  {
    Top(NewFirst, reg, s, Matching.TopCount)
  }

  /** The documented loop keeps exactly the ten buys of highest price, the most recent first at one price. */
  lemma TopBuysNewestFirstIsNewestTen(reg: Registry, s: seq<OrderId>)
    requires KeyedById(reg) && Known(reg, s) && NoDup(s)
    ensures LeastK(NewFirst, reg, s, TopBuysNewestFirst(reg, s), Matching.TopCount)
  {
    TopIsLeastK(NewFirst, reg, s, Matching.TopCount);
  }

  /** The orders of a sequence without duplicates, of one direction, have no duplicates. */
  lemma {:induction false} OfSideNoDup(reg: Registry, s: seq<OrderId>, buy: bool)
    requires Known(reg, s) && NoDup(s)
    ensures NoDup(Matching.OfSide(reg, s, buy))
    decreases |s|
  {
    if |s| > 0 {
      var n := |s| - 1;
      assert s[..n] + [s[n]] == s;
      assert s[n] !in s[..n];
      OfSideNoDup(reg, s[..n], buy);
      var t := Matching.OfSide(reg, s[..n], buy);
      var u := Matching.OfSide(reg, s, buy);
      forall i, j | 0 <= i < j < |u|
        ensures u[i] != u[j]
      {
        if j >= |t| {
          assert u[i] in t;
        }
      }
    }
  }

  /** topBuyOrders: its loop over `allOrders` admits each buy order. */
  function TopBuyOrders(b: ListBook): (r: seq<OrderId>)
    requires Known(b.orders, b.allOrders)
  {
    TopBuys(b.orders, Matching.OfSide(b.orders, b.allOrders, true))
  }

  /** topSellOrders: its loop over `allOrders` admits each sell order, comparing and sorting with lowestFirstComparator. */
  function TopSellOrders(b: ListBook): (r: seq<OrderId>)
    requires Known(b.orders, b.allOrders)
  {
    Top(LowFirst, b.orders, Matching.OfSide(b.orders, b.allOrders, false), Matching.TopCount)
  }

  /**
   * topBuyOrders holds at most ten buy orders of `allOrders`, sorted by
   * highestFirstComparator, all of them when there are fewer than ten, and
   * none left out is priced above one kept; topSellOrders holds exactly
   * the ten (or all) sell orders lowestFirstComparator puts first, in that
   * order.
   */
  lemma TopOrdersAreBest(b: ListBook)
    requires Sound(b)
    ensures HighestK(b.orders, Matching.OfSide(b.orders, b.allOrders, true), TopBuyOrders(b), Matching.TopCount)
    ensures LeastK(LowFirst, b.orders, Matching.OfSide(b.orders, b.allOrders, false), TopSellOrders(b), Matching.TopCount)
  {
    OfSideNoDup(b.orders, b.allOrders, true);
    OfSideNoDup(b.orders, b.allOrders, false);
    TopBuysAreHighest(b.orders, Matching.OfSide(b.orders, b.allOrders, true));
    TopIsLeastK(LowFirst, b.orders, Matching.OfSide(b.orders, b.allOrders, false), Matching.TopCount);
  }

  /** One more order of a side considered by the loop of topBuyOrders. */
  lemma TopBuysAppend(reg: Registry, s: seq<OrderId>, x: OrderId)
    requires Known(reg, s) && x in reg
    ensures TopBuys(reg, s + [x]) == AdmitBuy(reg, TopBuys(reg, s), x)
  {
    assert (s + [x])[..|s|] == s;
  }

  /** One more order of a side considered by the loop of topSellOrders. */
  lemma TopAppend(key: Key, reg: Registry, s: seq<OrderId>, x: OrderId, k: nat)
    requires Known(reg, s) && x in reg
    ensures Top(key, reg, s + [x], k) == Admit(key, reg, Top(key, reg, s, k), x, k)
  {
    assert (s + [x])[..|s|] == s;
  }

  /**
   * getBestBid sorts the buy orders with highestFirstComparator and takes
   * the first; getBestAsk sorts the sell orders with the same comparator
   * and takes the last; `None` (Java's `null`) when there are none.
   */
  function BestOf(b: ListBook, buy: bool): Option<OrderId>
    requires Known(b.orders, b.allOrders)
  {
    var side := Matching.OfSide(b.orders, b.allOrders, buy);
    if |side| == 0 then None
    else if buy then Some(Least(HighFirst, b.orders, side))
    else Some(Greatest(HighFirst, b.orders, side))
  }

  /**
   * The best bid is a buy order of `allOrders` with the highest price (the
   * oldest among equals); the best ask is a sell order with the lowest
   * price (the newest among equals); `None` exactly when the side is empty.
   */
  lemma BestOfIsBest(b: ListBook, buy: bool)
    requires Sound(b)
    ensures BestOf(b, buy).None? <==> forall x :: x in b.allOrders ==> b.orders[x].isBuy != buy
    ensures BestOf(b, buy).Some? ==>
      var v := BestOf(b, buy).value;
      && v in b.allOrders && b.orders[v].isBuy == buy
      && forall x :: x in b.allOrders && b.orders[x].isBuy == buy && x != v ==>
           if buy then b.orders[v].price > b.orders[x].price || (b.orders[v].price == b.orders[x].price && v < x)
           else b.orders[v].price < b.orders[x].price || (b.orders[v].price == b.orders[x].price && v > x)
  {
    var side := Matching.OfSide(b.orders, b.allOrders, buy);
    SideEmpty(b, buy);
    if |side| > 0 {
      assert side[0] in side;
      if buy {
        LeastIsLeast(HighFirst, b.orders, side);
      } else {
        GreatestIsGreatest(HighFirst, b.orders, side);
      }
    }
  }

  /**
   * The mid-point storeMovingAverage(n) records: `buyPrice + 12` when
   * either side is empty, else the best bid and best ask prices added and
   * halved as Java `int`s.
   */
  function MidPoint(b: ListBook, buyPrice: int): int
    requires Known(b.orders, b.allOrders)
  {
    var bid, ask := BestOf(b, true), BestOf(b, false);
    if bid.None? || ask.None? then Wrap(buyPrice + 12)
    else Quot(Wrap(b.orders[bid.value].price + b.orders[ask.value].price), 2)
  }

  /** Every order of `s` is held. */
  predicate AllHeld(b: ListBook, s: seq<OrderId>) {
    forall i :: 0 <= i < |s| ==> Holds(b, s[i])
  }

  /** A change of quantities only keeps a list of held orders held. */
  lemma AllHeldStable(b: ListBook, b': ListBook, s: seq<OrderId>)
    requires AllHeld(b, s)
    requires Matching.OnlyQuantities(b.orders, b'.orders) && b'.orderMap.Keys == b.orderMap.Keys
    ensures AllHeld(b', s)
  {
    forall i | 0 <= i < |s|
      ensures Holds(b', s[i])
    {
      assert Holds(b, s[i]);
    }
  }

  /** The fields the loop of tradeMarketOrder leaves behind: the total volume, the last trade price and the passive fills. */
  datatype ListSwept = ListSwept(market: ListMarket, total: int, price: int, fills: seq<Matching.Fill>)

  /**
   * The loop of tradeMarketOrder from the `i`-th of the top orders `tops`
   * on: the aggressor `a` trades against each in order, the passive agent
   * is told of the volume the pairwise trade returns, that volume is added
   * to the total, and the loop stops after the trade that brings the total
   * to `quantityToRid`.
   */
  function Sweep(m: ListMarket, a: OrderId, tops: seq<OrderId>, i: nat, total: int, quantityToRid: int, price: int,
                 fills: seq<Matching.Fill>): (r: ListSwept)
    requires Holds(m.book, a) && AllHeld(m.book, tops)
    decreases |tops| - i
  {
    if i >= |tops| then ListSwept(m, total, price, fills)
    else
      var p := tops[i];
      PassKeepsHeld(m, a, tops, i);
      var t := PairAsWritten(m, a, p);
      var fill := Matching.Fill(m.book.orders[p].creator, t.volume);
      if total + t.volume < quantityToRid then
        Sweep(t.market, a, tops, i + 1, total + t.volume, quantityToRid, m.book.orders[p].price, fills + [fill])
      else ListSwept(t.market, total + t.volume, m.book.orders[p].price, fills + [fill])
  }

  /** The pairwise trade of one pass of the sweep keeps the aggressor and every top order held. */
  lemma PassKeepsHeld(m: ListMarket, a: OrderId, tops: seq<OrderId>, i: nat)
    requires Holds(m.book, a) && AllHeld(m.book, tops) && i < |tops|
    ensures Holds(m.book, tops[i])
    ensures var t := PairAsWritten(m, a, tops[i]);
            Holds(t.market.book, a) && AllHeld(t.market.book, tops)
  {
    assert Holds(m.book, tops[i]);
    AllHeldStable(m.book, PairAsWritten(m, a, tops[i]).market.book, tops);
  }

  /** The pass of the sweep that brings the total to `quantityToRid` is its last. */
  lemma SweepEnds(m: ListMarket, a: OrderId, tops: seq<OrderId>, i: nat, total: int, quantityToRid: int, price: int,
                  fills: seq<Matching.Fill>, t: ListPaired)
    requires Holds(m.book, a) && AllHeld(m.book, tops) && i < |tops|
    requires Holds(m.book, tops[i]) && t == PairAsWritten(m, a, tops[i])
    requires total + t.volume >= quantityToRid
    ensures Sweep(m, a, tops, i, total, quantityToRid, price, fills)
         == ListSwept(t.market, total + t.volume, m.book.orders[tops[i]].price,
                      fills + [Matching.Fill(m.book.orders[tops[i]].creator, t.volume)])
  {
  }

  /** Past the last top order the sweep is over. */
  lemma SweepExhausted(m: ListMarket, a: OrderId, tops: seq<OrderId>, i: nat, total: int, quantityToRid: int, price: int,
                       fills: seq<Matching.Fill>)
    requires Holds(m.book, a) && AllHeld(m.book, tops) && i >= |tops|
    ensures Sweep(m, a, tops, i, total, quantityToRid, price, fills) == ListSwept(m, total, price, fills)
  {
  }

  /**
   * Every pairwise trade of the sweep keeps the book sound, and so does the
   * sweep; the passive fills it adds balance the volume it adds to the total.
   */
  lemma {:induction false} SweepBalances(m: ListMarket, a: OrderId, tops: seq<OrderId>, i: nat, total: int,
                                         quantityToRid: int, price: int, fills: seq<Matching.Fill>, goal: ListSwept)
    requires SweepsTo(m, a, tops, i, total, quantityToRid, price, fills, goal)
    ensures Sound(m.book) ==> Sound(goal.market.book)
    ensures Matching.Net(goal.fills) - Matching.Net(fills) == goal.total - total
    decreases |tops| - i
  {
    if i >= |tops| {
      SweepExhausted(m, a, tops, i, total, quantityToRid, price, fills);
    } else {
      var p := tops[i];
      PassKeepsHeld(m, a, tops, i);
      var t := PairAsWritten(m, a, p);
      var fill := Matching.Fill(m.book.orders[p].creator, t.volume);
      var total', price', fills' := total + t.volume, m.book.orders[p].price, fills + [fill];
      if total' < quantityToRid {
        SweepStep(m, a, tops, i, total, quantityToRid, price, fills, goal, t, total', price', fills');
        SweepBalances(t.market, a, tops, i + 1, total', quantityToRid, price', fills', goal);
      } else {
        SweepEnds(m, a, tops, i, total, quantityToRid, price, fills, t);
      }
      PairKeepsSound(m, a, p);
      Matching.NetAppend(fills, fill);
    }
  }

  /** The sweep from the `i`-th top order on, in market `m`, is defined and comes to `goal`. */
  predicate SweepsTo(m: ListMarket, a: OrderId, tops: seq<OrderId>, i: nat, total: int, quantityToRid: int, price: int,
                     fills: seq<Matching.Fill>, goal: ListSwept) {
    && Holds(m.book, a) && AllHeld(m.book, tops)
    && Sweep(m, a, tops, i, total, quantityToRid, price, fills) == goal
  }

  /**
   * One pass of the sweep that leaves the total short of `quantityToRid`:
   * after the pairwise trade `t` against the `i`-th top order, the sweep
   * from the next order, with the volume, price and fill added, still comes
   * to `goal`.
   */
  lemma SweepStep(m: ListMarket, a: OrderId, tops: seq<OrderId>, i: nat, total: int, quantityToRid: int, price: int,
                  fills: seq<Matching.Fill>, goal: ListSwept, t: ListPaired,
                  total': int, price': int, fills': seq<Matching.Fill>)
    requires i < |tops| && SweepsTo(m, a, tops, i, total, quantityToRid, price, fills, goal)
    requires Holds(m.book, tops[i]) && t == PairAsWritten(m, a, tops[i])
    requires total' == total + t.volume && total' < quantityToRid
    requires price' == m.book.orders[tops[i]].price
    requires fills' == fills + [Matching.Fill(m.book.orders[tops[i]].creator, t.volume)]
    ensures SweepsTo(t.market, a, tops, i + 1, total', quantityToRid, price', fills', goal)
  {
    PassKeepsHeld(m, a, tops, i);
  }

  /** The top ten orders of the side opposite to `buy`, as tradeMarketOrder fetches them. */
  function TopOpposite(b: ListBook, buy: bool): (r: seq<OrderId>)
    requires Known(b.orders, b.allOrders)
  {
    if buy then TopSellOrders(b) else TopBuyOrders(b)
  }

  /** A side of `allOrders` is empty exactly when no order has its direction. */
  lemma SideEmpty(b: ListBook, buy: bool)
    requires Known(b.orders, b.allOrders)
    ensures |Matching.OfSide(b.orders, b.allOrders, buy)| == 0 <==> forall x :: x in b.allOrders ==> b.orders[x].isBuy != buy
  {
    var side := Matching.OfSide(b.orders, b.allOrders, buy);
    if |side| > 0 {
      assert side[0] in side;
    }
  }

  /** The opposite top-ten list is empty exactly when `allOrders` has no order of the opposite side, and it lists held orders. */
  lemma TopOppositeHeld(b: ListBook, buy: bool)
    requires Sound(b)
    ensures |TopOpposite(b, buy)| == 0 <==> forall x :: x in b.allOrders ==> b.orders[x].isBuy == buy
    ensures AllHeld(b, TopOpposite(b, buy))
  {
    var side := Matching.OfSide(b.orders, b.allOrders, !buy);
    var t := TopOpposite(b, buy);
    TopOppositeCount(b, buy);
    SideEmpty(b, !buy);
    forall i | 0 <= i < |t|
      ensures Holds(b, t[i])
    {
      assert t[i] in side;
    }
  }

  /** The opposite top-ten list holds min(10, n) of the n opposite orders. */
  lemma TopOppositeCount(b: ListBook, buy: bool)
    requires Sound(b)
    ensures var n := |Matching.OfSide(b.orders, b.allOrders, !buy)|;
            |TopOpposite(b, buy)| == if n < Matching.TopCount then n else Matching.TopCount
  {
    OfSideNoDup(b.orders, b.allOrders, !buy);
    if buy {
      TopIsLeastK(LowFirst, b.orders, Matching.OfSide(b.orders, b.allOrders, false), Matching.TopCount);
    } else {
      TopBuysAreHighest(b.orders, Matching.OfSide(b.orders, b.allOrders, true));
    }
  }

  /**
   * tradeMarketOrder: the order is created as a market order; in the
   * starting period it is cancelled at once; otherwise it is swept against
   * the opposite top ten.
   */
  function MarketOrder(m: ListMarket, o: Order, starting: bool): (r: ListOutcome)
    requires Sound(m.book) && o.id !in m.book.orders
  {
    CreateKeepsSound(m.book, o);
    var m1 := m.(book := Create(m.book, o));
    if starting then ListOutcome(m1.(book := Cancel(m1.book, o.id)), [])
    else SweepPlaced(m1, o.id)
  }

  /**
   * tradeMarketOrder once the market order `a` is in the book: when the
   * opposite side is empty it is cancelled; otherwise it is swept against
   * the opposite top ten, the aggressor is told of the total, its side gets
   * the total as last and current aggressor volume, and the last passive
   * price becomes the last trade price.
   */
  function SweepPlaced(m: ListMarket, a: OrderId): (r: ListOutcome)
    requires Sound(m.book) && Holds(m.book, a)
  {
    var o := m.book.orders[a];
    var tops := TopOpposite(m.book, o.isBuy);
    if |tops| == 0 then ListOutcome(m.(book := Cancel(m.book, a)), [])
    else
      TopOppositeHeld(m.book, o.isBuy);
      var r := Sweep(m, a, tops, 0, 0, o.currentQuant, 0, []);
      ListOutcome(r.market.AddLast(o.isBuy, r.total).(lastTradePrice := r.price).AddCurr(o.isBuy, r.total),
                  r.fills + [Matching.Fill(o.creator, r.total)])
  }

  /** The sweep unfolded, for a caller that has run the loop itself. */
  lemma SweepPlacedSwept(m: ListMarket, a: OrderId, tops: seq<OrderId>, m': ListMarket, total: int, price: int,
                         fills: seq<Matching.Fill>)
    requires Sound(m.book) && Holds(m.book, a)
    requires tops == TopOpposite(m.book, m.book.orders[a].isBuy) && |tops| > 0 && AllHeld(m.book, tops)
    requires Sweep(m, a, tops, 0, 0, m.book.orders[a].currentQuant, 0, []) == ListSwept(m', total, price, fills)
    ensures SweepPlaced(m, a) == ListOutcome(
      m'.AddLast(m.book.orders[a].isBuy, total).(lastTradePrice := price).AddCurr(m.book.orders[a].isBuy, total),
      fills + [Matching.Fill(m.book.orders[a].creator, total)])
  {
  }

  /** The sweep of a market order in the book keeps the book sound. */
  lemma SweepPlacedKeepsSound(m: ListMarket, a: OrderId)
    requires Sound(m.book) && Holds(m.book, a)
    ensures Sound(SweepPlaced(m, a).market.book)
  {
    var o := m.book.orders[a];
    var tops := TopOpposite(m.book, o.isBuy);
    if |tops| == 0 {
      CancelKeepsSound(m.book, a);
    } else {
      TopOppositeHeld(m.book, o.isBuy);
      SweepBalances(m, a, tops, 0, 0, o.currentQuant, 0, [], Sweep(m, a, tops, 0, 0, o.currentQuant, 0, []));
    }
  }

  /**
   * In the starting period a market order is created and cancelled at once:
   * `allOrders` and every list are as before (its creator now has a list,
   * empty if it had none), the order is registered with quantity 0, and no
   * other field changes.
   */
  lemma MarketOrderInStartingPeriod(m: ListMarket, o: Order)
    requires Sound(m.book) && o.id !in m.book.orders
    ensures var r := MarketOrder(m, o, true);
            && r.fills == []
            && r.market.book.allOrders == m.book.allOrders
            && r.market.book.orderMap == m.book.orderMap[o.creator := ListOf(m.book, o.creator)]
            && r.market.book.orders == m.book.orders[o.id := o.SetQuant(0)]
            && r.market.(book := m.book) == m
  {
    CreateThenCancel(m.book, o);
  }

  /** A market order that finds no opposite order is cancelled the same way, and no one is told of a fill. */
  lemma MarketOrderOnEmptySide(m: ListMarket, o: Order)
    requires Sound(m.book) && o.id !in m.book.orders
    requires forall x :: x in m.book.allOrders ==> m.book.orders[x].isBuy == o.isBuy
    ensures MarketOrder(m, o, false) == MarketOrder(m, o, true)
  {
    CreateKeepsSound(m.book, o);
    TopOppositeHeld(Create(m.book, o), o.isBuy);
  }

  /** A market order keeps the book sound. */
  lemma MarketOrderKeepsSound(m: ListMarket, o: Order, starting: bool)
    requires Sound(m.book) && o.id !in m.book.orders
    ensures Sound(MarketOrder(m, o, starting).market.book)
  {
    CreateKeepsSound(m.book, o);
    var m1 := m.(book := Create(m.book, o));
    CancelKeepsSound(m1.book, o.id);
    SweepPlacedKeepsSound(m1, o.id);
  }

  /** When a market order trades, the last call tells the aggressor of the total, the sum of the volumes the passive agents were told of. */
  lemma MarketOrderReports(m: ListMarket, o: Order, starting: bool)
    requires Sound(m.book) && o.id !in m.book.orders
    ensures var fills := MarketOrder(m, o, starting).fills;
            |fills| > 0 ==> fills[|fills| - 1] == Matching.Fill(o.creator, Matching.Net(fills[..|fills| - 1]))
  {
    CreateKeepsSound(m.book, o);
    var m1 := m.(book := Create(m.book, o));
    var tops := TopOpposite(m1.book, o.isBuy);
    if !starting && |tops| > 0 {
      TopOppositeHeld(m1.book, o.isBuy);
      var r := Sweep(m1, o.id, tops, 0, 0, o.currentQuant, 0, []);
      SweepBalances(m1, o.id, tops, 0, 0, o.currentQuant, 0, [], r);
      assert (r.fills + [Matching.Fill(o.creator, r.total)])[..|r.fills|] == r.fills;
    }
  }
}
