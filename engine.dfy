/**
 * The engine's invariant, over the values of its fields. It is kept apart
 * from the class so that a method proves it as one fact.
 */
module EngineState {
  import opened JavaInt
  import opened Orders
  import Matching

  /** MOVING_AVERAGE_LENGTH: the moving sum drops its oldest mid-point once it holds more than this many. */
  const MovingAverageLength: nat := 500

  /** The sum of a sequence of mid-points, unbounded. */
  function Sum(s: seq<int>): int
    decreases |s|
  {
    if |s| == 0 then 0 else Sum(s[..|s| - 1]) + s[|s| - 1]
  }

  /**
   * A valid book, agents registered under their own IDs, every agent with
   * a list registered, at most one mid-point more than the window, and a
   * moving sum equal to the `int` sum of the kept mid-points.
   */
  predicate Consistent(b: Matching.Book, agentsKeyed: bool, registered: set<AgentId>, midpoints: seq<int>, movingSum: int)
  {
    && Matching.Valid(b)
    && agentsKeyed
    && b.orderMap.Keys <= registered
    && |midpoints| <= MovingAverageLength + 1
    && movingSum == Wrap(Sum(midpoints))
  }

  lemma {:induction false} SumDropFirst(s: seq<int>)
    requires |s| > 0
    ensures Sum(s) == s[0] + Sum(s[1..])
    decreases |s|
  {
    if |s| > 1 {
      SumDropFirst(s[..|s| - 1]);
      assert s[..|s| - 1][1..] == s[1..][..|s| - 2];
    }
  }

  /** The window storeMovingAverage keeps: the oldest mid-point polled once more than `n` are kept, then `m` added. */
  function Slide(midpoints: seq<int>, m: int, n: int): seq<int>
    requires n >= 0 || |midpoints| > 0
  {
    (if |midpoints| > n then midpoints[1..] else midpoints) + [m]
  }

  /**
   * Polling the oldest mid-point (subtracting it from the moving sum) when
   * more than `n` are kept, then adding `m`, keeps the moving sum equal to
   * the `int` sum of the new window, and a window no longer than `n + 1`
   * stays so.
   */
  lemma {:induction false} SlideKeepsSum(midpoints: seq<int>, movingSum: int, m: int, n: int)
    requires (n >= 0 || |midpoints| > 0) && movingSum == Wrap(Sum(midpoints))
    ensures |midpoints| <= n + 1 ==> |Slide(midpoints, m, n)| <= n + 1
    ensures |midpoints| > n ==> Wrap(Wrap(movingSum - midpoints[0]) + m) == Wrap(Sum(Slide(midpoints, m, n)))
    ensures |midpoints| <= n ==> Wrap(movingSum + m) == Wrap(Sum(Slide(midpoints, m, n)))
  {
    var kept := if |midpoints| > n then midpoints[1..] else midpoints;
    assert (kept + [m])[..|kept|] == kept;
    assert Sum(Slide(midpoints, m, n)) == Sum(kept) + m;
    WrapAdd(Sum(midpoints), m);
    if |midpoints| > n {
      SumDropFirst(midpoints);
      WrapAdd(Sum(midpoints), -midpoints[0]);
      WrapAdd(Sum(midpoints) - midpoints[0], m);
    }
  }

  /**
   * The mid-point storeMovingAverage records: `buyPrice + 12` when either
   * side is empty, else the best bid and best ask prices added and halved
   * as Java `int`s.
   */
  function MidPoint(b: Matching.Book, buyPrice: int): int
    requires Matching.Valid(b)
  {
    var bid, ask := Matching.Best(b, true), Matching.Best(b, false);
    if bid.None? || ask.None? then Wrap(buyPrice + 12)
    else Quot(Wrap(b.orders[bid.value].price + b.orders[ask.value].price), 2)
  }

  /** When the book is not crossed and the prices' sum fits an `int`, the mid-point lies between the best bid and the best ask. */
  lemma MidPointBetween(b: Matching.Book, buyPrice: int)
    requires Matching.Valid(b) && |b.buyOrders| > 0 && |b.sellOrders| > 0
    requires b.orders[b.buyOrders[0]].price <= b.orders[b.sellOrders[|b.sellOrders| - 1]].price
    requires InRange(b.orders[b.buyOrders[0]].price + b.orders[b.sellOrders[|b.sellOrders| - 1]].price)
    ensures b.orders[b.buyOrders[0]].price <= MidPoint(b, buyPrice) <= b.orders[b.sellOrders[|b.sellOrders| - 1]].price
  {
    var sum := b.orders[b.buyOrders[0]].price + b.orders[b.sellOrders[|b.sellOrders| - 1]].price;
    WrapInRange(sum);
    QuotTwo(sum);
  }

  /**
   * The startup time the constructor stores as written: it assigns 0 to
   * its `startupTime` parameter, which hides the field of that name, and
   * then copies the parameter into the field.
   */
  function StoredStartupTime(startupTime: int): (stored: int)
    ensures startupTime != 0 ==> stored != startupTime
  {
    var startupTime := 0;
    startupTime
  }

  /** A one-minute startup period is stored as no startup period at all. */
  lemma StartupTimeLost()
    ensures StoredStartupTime(60000) == 0
  {
  }
}

/**
 * The matching engine of src/edu/virginia/jinsup/MatchingEngine.java as a
 * class whose fields are the engine's own. Each order-handling method is
 * proved to leave the fields exactly as the matching functions of module
 * `Matching` say, to keep the engine's invariant, and to credit the agents
 * with exactly the fills those functions report.
 *
 * The CSV log buffer, the calls into the depth chart and the creation of the
 * log file are side effects that change none of these fields; they are not
 * modelled.
 */
module Engine {
  import opened JavaInt
  import opened Optional
  import opened Orders
  import opened OrderBook
  import opened Matching
  import opened Agents
  import opened EngineState

  /** The walk of getBestBidQuantity: along the buy side `s` from its best end while the price stays the best bid's. */
  method QuantityFromFirst(reg: Registry, s: seq<OrderId>, bestBidPrice: int) returns (quantity: int)
    requires Known(reg, s) && Sorted(HighFirst, reg, s)
    requires |s| > 0 && reg[s[0]].price == bestBidPrice
    ensures quantity == Wrap(QuantityAt(reg, s, bestBidPrice))
  {
    var i;
    quantity, i := WalkForward(reg, s, bestBidPrice);
    if i < |s| {
      AtPriceStops(reg, s, i, bestBidPrice);
    } else {
      AtPriceBefore(reg, s, i, bestBidPrice);
    }
  }

  /**
   * The loop of getBestBidQuantity: sums the orders of `s` from the front
   * and stops at the first one not at `price` (the source's `break`), or
   * at the end.
   */
  method WalkForward(reg: Registry, s: seq<OrderId>, price: int) returns (quantity: int, i: nat)
    requires Known(reg, s)
    ensures i <= |s| && (i < |s| ==> reg[s[i]].price != price)
    ensures quantity == Wrap(TotalQuant(reg, AtPrice(reg, s[..i], price)))
    ensures i == |s| ==> quantity == Wrap(QuantityAt(reg, s, price))
  {
    quantity := 0;
    i := 0;
    while i < |s| && reg[s[i]].price == price
      invariant i <= |s|
      invariant quantity == Wrap(TotalQuant(reg, AtPrice(reg, s[..i], price)))
    {
      WrappedStep(reg, s, i, price, quantity);
      quantity := Wrap(quantity + reg[s[i]].currentQuant);
      i := i + 1;
    }
    if i == |s| {
      assert s[..i] == s;
    }
  }

  /** The walk of getBestAskQuantity: backwards along the sell side `s` from its best end while the price stays the best ask's. */
  method QuantityFromLast(reg: Registry, s: seq<OrderId>, bestAskPrice: int) returns (quantity: int)
    requires Known(reg, s) && Sorted(HighFirst, reg, s)
    requires |s| > 0 && reg[s[|s| - 1]].price == bestAskPrice
    ensures quantity == Wrap(QuantityAt(reg, s, bestAskPrice))
  {
    var i;
    quantity, i := WalkBackward(reg, s, bestAskPrice);
    if 0 < i {
      AtPriceStopsBack(reg, s, i, bestAskPrice);
    }
  }

  /**
   * The loop of getBestAskQuantity: sums the orders of `s` from the back
   * and stops at the first one not at `price` (the source's `break`), or
   * at the front.
   */
  method WalkBackward(reg: Registry, s: seq<OrderId>, price: int) returns (quantity: int, i: nat)
    requires Known(reg, s)
    ensures i <= |s| && (0 < i ==> reg[s[i - 1]].price != price)
    ensures quantity == Wrap(TotalQuant(reg, AtPrice(reg, s[i..], price)))
    ensures i == 0 ==> quantity == Wrap(QuantityAt(reg, s, price))
  {
    quantity := 0;
    i := |s|;
    while 0 < i && reg[s[i - 1]].price == price
      invariant i <= |s|
      invariant quantity == Wrap(TotalQuant(reg, AtPrice(reg, s[i..], price)))
    {
      WrappedStepBack(reg, s, i, price, quantity);
      quantity := Wrap(quantity + reg[s[i - 1]].currentQuant);
      i := i - 1;
    }
    if i == 0 {
      assert s[i..] == s;
    }
  }

  class MatchingEngine {
    /** The order objects the engine has been handed, by ID, with their current fields. */
    var orders: Registry
    var buyOrders: seq<OrderId>
    var sellOrders: seq<OrderId>
    var orderMap: map<AgentId, seq<OrderId>>
    var agentMap: map<AgentId, Agent>
    var lastAgVolumeBuySide: int
    var lastAgVolumeSellSide: int
    var currAgVolumeBuySide: int
    var currAgVolumeSellSide: int
    var lastTradePrice: int
    var startingPeriod: bool
    const buyPrice: int
    var midpoints: seq<int>
    var movingSum: int
    const startupTime: int
    var time: int

    /** The order-handling fields as a `Matching.Book`. */
    function BookState(): Book
      reads this`orders, this`buyOrders, this`sellOrders, this`orderMap
    {
      Book(orders, buyOrders, sellOrders, orderMap)
    }

    /** The fields the trading methods update, as a `Matching.Market`. */
    function MarketState(): Market
      reads this`orders, this`buyOrders, this`sellOrders, this`orderMap
      reads this`lastTradePrice, this`lastAgVolumeBuySide, this`lastAgVolumeSellSide
      reads this`currAgVolumeBuySide, this`currAgVolumeSellSide
    {
      Market(BookState(), lastTradePrice, lastAgVolumeBuySide, lastAgVolumeSellSide,
             currAgVolumeBuySide, currAgVolumeSellSide)
    }

    /** The registered agents. */
    function AgentSet(): set<Agent>
      reads this`agentMap
    {
      set k | k in agentMap :: agentMap[k]
    }

    /**
     * Since the method began, each registered agent's inventory has grown by
     * its credit in `fills`, and its last-order-traded flag is raised exactly
     * when it was raised before or a fill names it.
     */
    twostate predicate Credited(fills: seq<Fill>)
      reads this`agentMap, AgentSet()`inventory, AgentSet()`lastOrderTraded
    {
      forall k :: k in agentMap && k in old(agentMap) ==>
        && agentMap[k].inventory == old(agentMap[k].inventory) + Credit(fills, k)
        && (agentMap[k].lastOrderTraded <==> old(agentMap[k].lastOrderTraded) || Notified(fills, k))
    }

    /** Each agent is registered under its own ID, so distinct IDs name distinct agents. */
    ghost predicate AgentsKeyed()
      reads this`agentMap
    {
      forall k :: k in agentMap ==> agentMap[k].id == k
    }

    /**
     * The engine's invariant: a valid book, every agent with a list is
     * registered, and the moving sum is the `int` sum of the kept mid-points.
     */
    ghost predicate Valid()
      reads this`orders, this`buyOrders, this`sellOrders, this`orderMap
      reads this`agentMap, this`midpoints, this`movingSum
    {
      Consistent(BookState(), AgentsKeyed(), agentMap.Keys, midpoints, movingSum)
    }

    /**
     * The constructor as it should be: empty book and lists, the last trade
     * price at the starting price, the starting period on, and the startup
     * time as given.
     */
    constructor (buyPrice: int, startupTime: int)
      ensures Valid()
      ensures orders == map[] && buyOrders == [] && sellOrders == [] && orderMap == map[] && agentMap == map[]
      ensures lastAgVolumeBuySide == 0 && lastAgVolumeSellSide == 0
      ensures currAgVolumeBuySide == 0 && currAgVolumeSellSide == 0
      ensures lastTradePrice == buyPrice && startingPeriod
      ensures midpoints == [] && movingSum == 0 && time == 0
      ensures this.buyPrice == buyPrice && this.startupTime == startupTime
    {
      orders := map[];
      buyOrders := [];
      sellOrders := [];
      orderMap := map[];
      agentMap := map[];
      midpoints := [];
      lastAgVolumeBuySide := 0;
      lastAgVolumeSellSide := 0;
      currAgVolumeBuySide := 0;
      currAgVolumeSellSide := 0;
      lastTradePrice := buyPrice;
      startingPeriod := true;
      movingSum := 0;
      this.startupTime := startupTime;
      this.buyPrice := buyPrice;
      time := 0;
    }

    /** cancelOrder: off both sides and its creator's list, with quantity 0. */
    method CancelOrder(id: OrderId, market: bool)
      requires Valid() && id in orders
      modifies this`orders, this`buyOrders, this`sellOrders, this`orderMap
      ensures Valid()
      ensures BookState() == Cancel(old(BookState()), id)
    {
      ghost var b0 := BookState();
      Withdraw(id);
      CancelKeepsValid(b0, id);
    }

    /** The removals of cancelOrder. */
    method Withdraw(id: OrderId)
      requires Holds(BookState(), id)
      modifies this`orders, this`buyOrders, this`sellOrders, this`orderMap
      ensures BookState() == Cancel(old(BookState()), id)
    {
      ghost var b0 := BookState();
      buyOrders := RemoveFirst(buyOrders, id);
      sellOrders := RemoveFirst(sellOrders, id);
      var creator := orders[id].creator;
      orderMap := orderMap[creator := RemoveFirst(orderMap[creator], id)];
      orders := orders[id := orders[id].SetQuant(0)];
      assert BookState() == Cancel(b0, id);
    }

    /** addNewAgent: registers the agent under its ID. */
    method AddNewAgent(id: AgentId, agent: Agent)
      requires Valid() && agent.id == id
      modifies this`agentMap
      ensures Valid()
      ensures agentMap == old(agentMap)[id := agent]
    {
      agentMap := agentMap[id := agent];
    }

    /** One `setLastOrderTraded(true, volume)` call on `agentMap.get(f.agent)`, which is `agent`. */
    method Notify(f: Fill, agent: Agent)
      requires f.agent in agentMap && agentMap[f.agent] == agent
      modifies agent`inventory, agent`lastOrderTraded
      ensures agent.inventory == old(agent.inventory) + f.volume && agent.lastOrderTraded
    {
      agent.SetLastOrderTraded(true, f.volume);
    }

    /** A filled order leaves its own side and its creator's list, with quantity 0. */
    method RetireOrder(id: OrderId)
      requires Holds(BookState(), id)
      modifies this`orders, this`buyOrders, this`sellOrders, this`orderMap
      ensures BookState() == Retire(old(BookState()), id)
    {
      var o := orders[id];
      if o.isBuy {
        buyOrders := RemoveFirst(buyOrders, id);
      } else {
        sellOrders := RemoveFirst(sellOrders, id);
      }
      orders := orders[id := o.SetQuant(0)];
      orderMap := orderMap[o.creator := RemoveFirst(orderMap[o.creator], id)];
    }

    /** The private `trade(Order, Order)`: aggressor `a` against passive `p`. */
    method PairTrade(a: OrderId, p: OrderId) returns (volumeTraded: int)
      requires Holds(BookState(), a) && Holds(BookState(), p) && a != p
      modifies this`orders, this`buyOrders, this`sellOrders, this`orderMap
      modifies this`lastTradePrice, this`currAgVolumeBuySide, this`currAgVolumeSellSide
      ensures MarketState() == Matching.PairTrade(old(MarketState()), a, p).market
      ensures volumeTraded == Matching.PairTrade(old(MarketState()), a, p).volume
    {
      ghost var m0 := MarketState();
      var o1 := orders[a];
      var o2 := orders[p];
      lastTradePrice := o2.price;
      if o1.currentQuant == o2.currentQuant {
        volumeTraded := o1.currentQuant;
        RetireOrder(a);
        RetireOrder(p);
      } else if o1.currentQuant > o2.currentQuant {
        volumeTraded := o2.currentQuant;
        orders := orders[a := o1.SetQuant(o1.currentQuant - o2.currentQuant)];
        RetireOrder(p);
      } else {
        volumeTraded := o1.currentQuant;
        orders := orders[p := o2.SetQuant(o2.currentQuant - o1.currentQuant)];
        RetireOrder(a);
      }
      ghost var bk := BookState();
      // logExtraTrades
      if o2.isBuy {
        currAgVolumeBuySide := currAgVolumeBuySide + volumeTraded;
      } else {
        currAgVolumeSellSide := currAgVolumeSellSide + volumeTraded;
      }
      assert MarketState() == Traded(m0, o2, bk, volumeTraded);
      PairTradeIs(m0, a, p, bk, volumeTraded);
    }

    /** createOrder's bookkeeping: the order joins its side and its creator's list, which is created when absent. */
    method Enter(o: Order)
      requires Known(orders, buyOrders) && Known(orders, sellOrders)
      modifies this`orders, this`buyOrders, this`sellOrders, this`orderMap
      ensures BookState() == Place(old(BookState()), o)
    {
      orders := orders[o.id := o];
      if o.isBuy {
        buyOrders := Insert(HighFirst, orders, buyOrders, o.id);
      } else {
        sellOrders := Insert(HighFirst, orders, sellOrders, o.id);
      }
      if o.creator in orderMap {
        orderMap := orderMap[o.creator := orderMap[o.creator] + [o.id]];
      } else {
        orderMap := orderMap[o.creator := [o.id]];
        assert [] + [o.id] == [o.id];
      }
    }

    /** willTrade: the opposite orders at exactly the incoming price, in side order, or `None` for Java's `null`. */
    method WillTrade(o: Order) returns (r: Option<seq<OrderId>>)
      requires Known(orders, buyOrders) && Known(orders, sellOrders)
      ensures r == Matching.WillTrade(BookState(), o)
    {
      var side := if o.isBuy then sellOrders else buyOrders;
      var samePrice: seq<OrderId> := [];
      for i := 0 to |side|
        invariant samePrice == AtPrice(orders, side[..i], o.price)
      {
        AtPriceAppend(orders, side[..i], [side[i]], o.price);
        assert side[..i + 1] == side[..i] + [side[i]];
        if orders[side[i]].price == o.price {
          samePrice := samePrice + [side[i]];
        }
      }
      assert side[..|side|] == side;
      r := if |samePrice| == 0 then None else Some(samePrice);
    }

    /**
     * `trade(Order, ArrayList)`: with candidates and outside the starting
     * period, the incoming order trades against the candidate
     * highestFirstComparator puts first and both agents are told.
     */
    method Trade(id: OrderId, cands: Option<seq<OrderId>>) returns (traded: bool)
      requires Valid() && id in orders && Candidates(BookState(), id, cands)
      modifies this`orders, this`buyOrders, this`sellOrders, this`orderMap
      modifies this`lastTradePrice, this`lastAgVolumeBuySide, this`lastAgVolumeSellSide
      modifies this`currAgVolumeBuySide, this`currAgVolumeSellSide
      modifies AgentSet()`inventory, AgentSet()`lastOrderTraded
      ensures Valid()
      ensures traded == LimitTraded(cands, startingPeriod)
      ensures MarketState() == LimitTrade(old(MarketState()), id, cands, startingPeriod).market
      ensures Credited(LimitTrade(old(MarketState()), id, cands, startingPeriod).fills)
    {
      if cands.None? {
        return false;
      }
      if startingPeriod {
        Withhold(id, cands.value);
        return false;
      }
      MatchValid(id, cands.value);
      traded := true;
    }

    /** The starting-period case of `trade(Order, ArrayList)`: the order is cancelled and nobody trades. */
    method Withhold(id: OrderId, c: seq<OrderId>)
      requires Valid() && id in orders && Candidates(BookState(), id, Some(c))
      modifies this`orders, this`buyOrders, this`sellOrders, this`orderMap
      ensures Valid()
      ensures MarketState() == LimitTrade(old(MarketState()), id, Some(c), true).market
      ensures Credited(LimitTrade(old(MarketState()), id, Some(c), true).fills)
    {
      CancelOrder(id, true);
    }

    /** The trading case of `trade(Order, ArrayList)`, keeping the engine's invariant. */
    method MatchValid(id: OrderId, c: seq<OrderId>)
      requires Valid() && id in orders && Candidates(BookState(), id, Some(c))
      modifies this`orders, this`buyOrders, this`sellOrders, this`orderMap
      modifies this`lastTradePrice, this`lastAgVolumeBuySide, this`lastAgVolumeSellSide
      modifies this`currAgVolumeBuySide, this`currAgVolumeSellSide
      modifies AgentSet()`inventory, AgentSet()`lastOrderTraded
      ensures Valid()
      ensures MarketState() == Matched(old(MarketState()), id, c).market
      ensures Credited(Matched(old(MarketState()), id, c).fills)
    {
      ghost var m0 := MarketState();
      Match(id, c);
      LimitTradeKeepsValid(m0, id, Some(c), false);
    }

    /** The trading half of `trade(Order, ArrayList)`, once it has candidates and the starting period is over. */
    method Match(id: OrderId, c: seq<OrderId>)
      requires Holds(BookState(), id) && Candidates(BookState(), id, Some(c))
      requires AgentsKeyed() && orderMap.Keys <= agentMap.Keys
      modifies this`orders, this`buyOrders, this`sellOrders, this`orderMap
      modifies this`lastTradePrice, this`lastAgVolumeBuySide, this`lastAgVolumeSellSide
      modifies this`currAgVolumeBuySide, this`currAgVolumeSellSide
      modifies AgentSet()`inventory, AgentSet()`lastOrderTraded
      ensures MarketState() == Matched(old(MarketState()), id, c).market
      ensures Credited(Matched(old(MarketState()), id, c).fills)
    {
      ghost var m0 := MarketState();
      lastTradePrice := orders[c[0]].price;
      // Collections.sort with highestFirstComparator, then get(0)
      var p := Least(HighFirst, orders, c);
      var o := orders[id];
      var passive := orders[p];
      assert o.creator in agentMap && passive.creator in agentMap;
      var volumeTraded := PairTrade(id, p);
      ghost var paired := MarketState();
      Settle(o, passive.creator, volumeTraded);
      LimitTradeIs(m0, id, c, p, paired, volumeTraded);
    }

    /**
     * What `trade(Order, ArrayList)` does after the pairwise trade: the
     * aggressor's side gets the volume as last aggressor volume, both agents
     * are told (the buyer `+volume`, the seller `-volume`), and
     * logAggressiveTrader adds the volume to the aggressor side's current
     * aggressor volume.
     */
    method Settle(o: Order, passiveCreator: AgentId, volumeTraded: int)
      requires AgentsKeyed() && o.creator in agentMap && passiveCreator in agentMap
      modifies this`lastAgVolumeBuySide, this`lastAgVolumeSellSide
      modifies this`currAgVolumeBuySide, this`currAgVolumeSellSide
      modifies AgentSet()`inventory, AgentSet()`lastOrderTraded
      ensures MarketState() == old(MarketState()).AddLast(o.isBuy, volumeTraded).AddCurr(o.isBuy, volumeTraded)
      ensures Credited([Fill(o.creator, Signed(o.isBuy, volumeTraded)), Fill(passiveCreator, Signed(!o.isBuy, volumeTraded))])
    {
      if o.isBuy {
        lastAgVolumeBuySide := lastAgVolumeBuySide + volumeTraded;
      } else {
        lastAgVolumeSellSide := lastAgVolumeSellSide + volumeTraded;
      }
      var f1 := Fill(o.creator, Signed(o.isBuy, volumeTraded));
      var f2 := Fill(passiveCreator, Signed(!o.isBuy, volumeTraded));
      Notify(f1, agentMap[f1.agent]);
      Notify(f2, agentMap[f2.agent]);
      // logAggressiveTrader
      if o.isBuy {
        currAgVolumeBuySide := currAgVolumeBuySide + volumeTraded;
      } else {
        currAgVolumeSellSide := currAgVolumeSellSide + volumeTraded;
      }
      CreditPair(f1, f2);
    }

    /**
     * createOrder: the order joins its side and its creator's list; a limit
     * order then trades through willTrade and `trade(Order, ArrayList)`. The
     * result says whether it traded.
     */
    method CreateOrder(o: Order, market: bool) returns (traded: bool)
      requires Valid() && o.id !in orders && o.creator in agentMap
      modifies this`orders, this`buyOrders, this`sellOrders, this`orderMap
      modifies this`lastTradePrice, this`lastAgVolumeBuySide, this`lastAgVolumeSellSide
      modifies this`currAgVolumeBuySide, this`currAgVolumeSellSide
      modifies AgentSet()`inventory, AgentSet()`lastOrderTraded
      ensures Valid()
      ensures traded == CreateTraded(old(BookState()), o, market, startingPeriod)
      ensures MarketState() == Matching.CreateOrder(old(MarketState()), o, market, startingPeriod).market
      ensures Credited(Matching.CreateOrder(old(MarketState()), o, market, startingPeriod).fills)
    {
      if market {
        CreateMarket(o);
        return false;
      }
      traded := CreateLimit(o);
    }

    /** createOrder for a market order: only the bookkeeping. */
    method CreateMarket(o: Order)
      requires Valid() && o.id !in orders && o.creator in agentMap
      modifies this`orders, this`buyOrders, this`sellOrders, this`orderMap
      ensures Valid()
      ensures MarketState() == Matching.CreateOrder(old(MarketState()), o, true, startingPeriod).market
      ensures Credited(Matching.CreateOrder(old(MarketState()), o, true, startingPeriod).fills)
    {
      Accept(o);
    }

    /** createOrder for a limit order: the bookkeeping, then willTrade and `trade(Order, ArrayList)`. */
    method CreateLimit(o: Order) returns (traded: bool)
      requires Valid() && o.id !in orders && o.creator in agentMap
      modifies this`orders, this`buyOrders, this`sellOrders, this`orderMap
      modifies this`lastTradePrice, this`lastAgVolumeBuySide, this`lastAgVolumeSellSide
      modifies this`currAgVolumeBuySide, this`currAgVolumeSellSide
      modifies AgentSet()`inventory, AgentSet()`lastOrderTraded
      ensures Valid()
      ensures traded == CreateTraded(old(BookState()), o, false, startingPeriod)
      ensures MarketState() == Matching.CreateOrder(old(MarketState()), o, false, startingPeriod).market
      ensures Credited(Matching.CreateOrder(old(MarketState()), o, false, startingPeriod).fills)
    {
      ghost var m0 := MarketState();
      Accept(o);
      assert Credited([]);
      WillTradeCandidates(BookState(), o.id);
      var samePrice := WillTrade(o);
      assert LimitTrade(MarketState(), o.id, samePrice, startingPeriod) == Matching.CreateOrder(m0, o, false, startingPeriod);
      traded := Trade(o.id, samePrice);
    }

    /** The bookkeeping of createOrder, keeping the engine's invariant. */
    method Accept(o: Order)
      requires Valid() && o.id !in orders && o.creator in agentMap
      modifies this`orders, this`buyOrders, this`sellOrders, this`orderMap
      ensures Valid()
      ensures MarketState() == old(MarketState()).(book := Place(old(BookState()), o))
      ensures orders[o.id] == o
    {
      ghost var b0 := BookState();
      Enter(o);
      PlaceKeepsValid(b0, o);
    }

    /**
     * modifyOrder, with the order moved to its new place on its side: the
     * order takes its new price and quantity, then trades through willTrade
     * and `trade(Order, ArrayList)`. The result says whether it traded.
     */
    method ModifyOrder(id: OrderId, newPrice: int, newQuant: int) returns (traded: bool)
      requires Valid() && id in orders
      modifies this`orders, this`buyOrders, this`sellOrders, this`orderMap
      modifies this`lastTradePrice, this`lastAgVolumeBuySide, this`lastAgVolumeSellSide
      modifies this`currAgVolumeBuySide, this`currAgVolumeSellSide
      modifies AgentSet()`inventory, AgentSet()`lastOrderTraded
      ensures Valid()
      ensures traded == ModifyTraded(old(BookState()), id, newPrice, newQuant, startingPeriod)
      ensures MarketState() == Modify(old(MarketState()), id, newPrice, newQuant, startingPeriod).market
      ensures Credited(Modify(old(MarketState()), id, newPrice, newQuant, startingPeriod).fills)
    {
      ghost var m0 := MarketState();
      RepriceValid(id, newPrice, newQuant);
      assert Credited([]);
      WillTradeCandidates(BookState(), id);
      var samePrice := WillTrade(orders[id]);
      assert LimitTrade(MarketState(), id, samePrice, startingPeriod) == Modify(m0, id, newPrice, newQuant, startingPeriod);
      traded := Trade(id, samePrice);
    }

    /** The re-pricing of modifyOrder, keeping the engine's invariant. */
    method RepriceValid(id: OrderId, newPrice: int, newQuant: int)
      requires Valid() && id in orders
      modifies this`orders, this`buyOrders, this`sellOrders, this`orderMap
      ensures Valid()
      ensures MarketState() == old(MarketState()).(book := Reprice(old(BookState()), id, newPrice, newQuant))
    {
      ghost var b0 := BookState();
      Reposition(id, newPrice, newQuant);
      RepriceKeepsValid(b0, id, newPrice, newQuant);
    }

    /** `setPrice` and `setQuant`, with the order taken out of its side and put back under its new key. */
    method Reposition(id: OrderId, newPrice: int, newQuant: int)
      requires Known(orders, buyOrders) && Known(orders, sellOrders) && id in orders
      modifies this`orders, this`buyOrders, this`sellOrders
      ensures BookState() == Reprice(old(BookState()), id, newPrice, newQuant)
    {
      RemoveFirstCounts(buyOrders, id);
      RemoveFirstCounts(sellOrders, id);
      orders := orders[id := orders[id].SetPrice(newPrice).SetQuant(newQuant)];
      if id in buyOrders {
        buyOrders := Insert(HighFirst, orders, RemoveFirst(buyOrders, id), id);
      }
      if id in sellOrders {
        sellOrders := Insert(HighFirst, orders, RemoveFirst(sellOrders, id), id);
      }
    }
  
    /**
     * tradeMarketOrder: outside the starting period the order is created as
     * a market order, then swept against the top ten orders of the opposite
     * side (or cancelled when that side is empty).
     */
    method TradeMarketOrder(o: Order)
      requires Valid() && o.id !in orders && o.creator in agentMap
      modifies this`orders, this`buyOrders, this`sellOrders, this`orderMap
      modifies this`lastTradePrice, this`lastAgVolumeBuySide, this`lastAgVolumeSellSide
      modifies this`currAgVolumeBuySide, this`currAgVolumeSellSide
      modifies AgentSet()`inventory, AgentSet()`lastOrderTraded
      ensures Valid()
      ensures MarketState() == MarketOrder(old(MarketState()), o, startingPeriod).market
      ensures Credited(MarketOrder(old(MarketState()), o, startingPeriod).fills)
    {
      if startingPeriod {
        return;
      }
      ghost var m0 := MarketState();
      // createOrder(order, true)
      CreateMarket(o);
      assert SweepPlaced(MarketState(), o.id) == MarketOrder(m0, o, false);
      SweepValid(o.id);
    }

    /** The sweep of tradeMarketOrder, keeping the engine's invariant. */
    method SweepValid(a: OrderId)
      requires Valid() && a in orders
      modifies this`orders, this`buyOrders, this`sellOrders, this`orderMap
      modifies this`lastTradePrice, this`lastAgVolumeBuySide, this`lastAgVolumeSellSide
      modifies this`currAgVolumeBuySide, this`currAgVolumeSellSide
      modifies AgentSet()`inventory, AgentSet()`lastOrderTraded
      ensures Valid()
      ensures MarketState() == SweepPlaced(old(MarketState()), a).market
      ensures Credited(SweepPlaced(old(MarketState()), a).fills)
    {
      ghost var m0 := MarketState();
      var o := orders[a];
      var tops: seq<OrderId>;
      if o.isBuy {
        tops := TopSellOrders();
      } else {
        tops := TopBuyOrders();
      }
      if |tops| == 0 {
        CancelUnmatched(a);
      } else {
        SweepTops(a, tops);
      }
    }

    /** A market order that finds the opposite side empty is cancelled, and no one is told of a fill. */
    method CancelUnmatched(a: OrderId)
      requires Valid() && a in orders && |TopOf(BookState(), !orders[a].isBuy)| == 0
      modifies this`orders, this`buyOrders, this`sellOrders, this`orderMap
      ensures Valid()
      ensures MarketState() == SweepPlaced(old(MarketState()), a).market
      ensures Credited(SweepPlaced(old(MarketState()), a).fills)
    {
      CancelOrder(a, true);
      assert Credited([]);
    }

    /** The sweep against the opposite side's top orders, keeping the engine's invariant. */
    method SweepTops(a: OrderId, tops: seq<OrderId>)
      requires Valid() && a in orders && |tops| > 0
      requires tops == TopOf(BookState(), !orders[a].isBuy)
      modifies this`orders, this`buyOrders, this`sellOrders, this`orderMap
      modifies this`lastTradePrice, this`lastAgVolumeBuySide, this`lastAgVolumeSellSide
      modifies this`currAgVolumeBuySide, this`currAgVolumeSellSide
      modifies AgentSet()`inventory, AgentSet()`lastOrderTraded
      ensures Valid()
      ensures MarketState() == SweepPlaced(old(MarketState()), a).market
      ensures Credited(SweepPlaced(old(MarketState()), a).fills)
    {
      SweepPlacedKeepsValid(MarketState(), a);
      SweepAgainst(a, tops);
    }

    /**
     * The loop of tradeMarketOrder and what follows it: the aggressor is
     * told of the signed total, its side gets the total as last and current
     * aggressor volume, and the last trade price is the last passive price.
     */
    method SweepAgainst(a: OrderId, tops: seq<OrderId>)
      requires Matching.Valid(BookState()) && a in orders && |tops| > 0
      requires tops == TopOf(BookState(), !orders[a].isBuy)
      requires AgentsKeyed() && orderMap.Keys <= agentMap.Keys
      modifies this`orders, this`buyOrders, this`sellOrders, this`orderMap
      modifies this`lastTradePrice, this`lastAgVolumeBuySide, this`lastAgVolumeSellSide
      modifies this`currAgVolumeBuySide, this`currAgVolumeSellSide
      modifies AgentSet()`inventory, AgentSet()`lastOrderTraded
      ensures MarketState() == SweepPlaced(old(MarketState()), a).market
      ensures Credited(SweepPlaced(old(MarketState()), a).fills)
    {
      ghost var inventories, told := Inventories(), Told();
      ghost var r := SweepPlaced(MarketState(), a);
      assert CreditedSince(inventories, told, []);
      SweepRecorded(a, tops, inventories, told);
      forall k | k in agentMap && k in old(agentMap)
        ensures agentMap[k].inventory == old(agentMap[k].inventory) + Credit(r.fills, k)
        ensures agentMap[k].lastOrderTraded <==> old(agentMap[k].lastOrderTraded) || Notified(r.fills, k)
      {
        assert k in inventories && k in told;
      }
    }

    /** The sweep and what follows it, with each agent's credit counted against snapshots taken before it. */
    method SweepRecorded(a: OrderId, tops: seq<OrderId>, ghost inventories: map<AgentId, int>, ghost told: map<AgentId, bool>)
      requires Matching.Valid(BookState()) && a in orders && |tops| > 0
      requires tops == TopOf(BookState(), !orders[a].isBuy)
      requires AgentsKeyed() && orderMap.Keys <= agentMap.Keys
      requires CreditedSince(inventories, told, [])
      modifies this`orders, this`buyOrders, this`sellOrders, this`orderMap
      modifies this`lastTradePrice, this`lastAgVolumeBuySide, this`lastAgVolumeSellSide
      modifies this`currAgVolumeBuySide, this`currAgVolumeSellSide
      modifies AgentSet()`inventory, AgentSet()`lastOrderTraded
      ensures MarketState() == SweepPlaced(old(MarketState()), a).market
      ensures CreditedSince(inventories, told, SweepPlaced(old(MarketState()), a).fills)
    {
      ghost var m0 := MarketState();
      var o := orders[a];
      TopsHeld(m0.book, a);
      assert o.creator in agentMap;
      var total, price, fills := SweepLoop(a, tops, o.currentQuant, inventories, told);
      SweepPlacedSwept(m0, a, tops, MarketState(), total, price, fills);
      RecordSweep(o.creator, o.isBuy, total, price, inventories, told, fills);
    }

    /**
     * After the loop of tradeMarketOrder: the aggressor `creator` is told of
     * the signed total, the total goes to the aggressor's side as last and
     * current aggressor volume, and the last passive price becomes the last
     * trade price.
     */
    method RecordSweep(creator: AgentId, buy: bool, total: int, price: int,
                       ghost inventories: map<AgentId, int>, ghost told: map<AgentId, bool>, ghost fills: seq<Fill>)
      requires AgentsKeyed() && creator in agentMap
      requires CreditedSince(inventories, told, fills)
      modifies this`lastTradePrice, this`lastAgVolumeBuySide, this`lastAgVolumeSellSide
      modifies this`currAgVolumeBuySide, this`currAgVolumeSellSide
      modifies AgentSet()`inventory, AgentSet()`lastOrderTraded
      ensures MarketState() == old(MarketState()).AddLast(buy, total).(lastTradePrice := price).AddCurr(buy, total)
      ensures CreditedSince(inventories, told, fills + [Fill(creator, Signed(buy, total))])
    {
      Tell(Fill(creator, Signed(buy, total)), inventories, told, fills);
      if buy {
        lastAgVolumeBuySide := lastAgVolumeBuySide + total;
      } else {
        lastAgVolumeSellSide := lastAgVolumeSellSide + total;
      }
      lastTradePrice := price;
      // logAggressiveTrader
      if buy {
        currAgVolumeBuySide := currAgVolumeBuySide + total;
      } else {
        currAgVolumeSellSide := currAgVolumeSellSide + total;
      }
    }

    /**
     * The loop of tradeMarketOrder: the aggressor `a` trades against the top
     * orders in turn, each passive agent is told of its fill, and the loop
     * stops once the total reaches `quantityToRid` or the top orders run out.
     */
    method SweepLoop(a: OrderId, tops: seq<OrderId>, quantityToRid: int,
                     ghost inventories: map<AgentId, int>, ghost told: map<AgentId, bool>)
      returns (total: int, price: int, ghost fills: seq<Fill>)
      requires Holds(BookState(), a) && AllHeld(BookState(), tops, a)
      requires AgentsKeyed() && orderMap.Keys <= agentMap.Keys
      requires CreditedSince(inventories, told, [])
      modifies this`orders, this`buyOrders, this`sellOrders, this`orderMap
      modifies this`lastTradePrice, this`currAgVolumeBuySide, this`currAgVolumeSellSide
      modifies AgentSet()`inventory, AgentSet()`lastOrderTraded
      ensures Sweep(old(MarketState()), a, tops, 0, 0, quantityToRid, 0, []) == Swept(MarketState(), total, price, fills)
      ensures CreditedSince(inventories, told, fills)
    {
      ghost var cur := MarketState();
      fills := [];
      ghost var goal := Sweep(cur, a, tops, 0, 0, quantityToRid, 0, []);
      total, price := 0, 0;
      var i := 0;
      while i < |tops|
        invariant 0 <= i <= |tops|
        invariant MarketState() == cur
        invariant SweepsTo(cur, a, tops, i, total, quantityToRid, price, fills, goal)
        invariant AgentsKeyed() && orderMap.Keys <= agentMap.Keys
        invariant CreditedSince(inventories, told, fills)
        invariant agentMap == old(agentMap)
        decreases |tops| - i
      {
        var done;
        i, total, price, done, cur, fills := SweepPass(a, tops, i, quantityToRid, total, price, cur, fills, inventories, told, goal);
        if done {
          return;
        }
      }
      SweepExhausted(cur, a, tops, i, total, quantityToRid, price, fills);
    }

    /**
     * One pass of the loop of tradeMarketOrder: a trade against the `i`-th
     * top order, and `done` when the total has reached `quantityToRid`;
     * the sweep still comes to `goal`.
     */
    method SweepPass(a: OrderId, tops: seq<OrderId>, i: int, quantityToRid: int, total: int, price: int,
                     ghost cur: Market, ghost fills: seq<Fill>,
                     ghost inventories: map<AgentId, int>, ghost told: map<AgentId, bool>, ghost goal: Swept)
      returns (next: int, total': int, price': int, done: bool, ghost cur': Market, ghost fills': seq<Fill>)
      requires 0 <= i < |tops|
      requires MarketState() == cur
      requires SweepsTo(cur, a, tops, i, total, quantityToRid, price, fills, goal)
      requires AgentsKeyed() && orderMap.Keys <= agentMap.Keys
      requires CreditedSince(inventories, told, fills)
      modifies this`orders, this`buyOrders, this`sellOrders, this`orderMap
      modifies this`lastTradePrice, this`currAgVolumeBuySide, this`currAgVolumeSellSide
      modifies AgentSet()`inventory, AgentSet()`lastOrderTraded
      ensures next == i + 1
      ensures MarketState() == cur'
      ensures orderMap.Keys <= agentMap.Keys
      ensures CreditedSince(inventories, told, fills')
      ensures done ==> goal == Swept(cur', total', price', fills')
      ensures !done ==> SweepsTo(cur', a, tops, next, total', quantityToRid, price', fills', goal)
    {
      PassKeepsHeld(cur, a, tops, i);
      var p := tops[i];
      price' := orders[p].price;
      var v := Strike(a, p, inventories, told, fills);
      fills' := fills + [PassiveFill(cur, a, p, v)];
      total' := total + v;
      cur' := Matching.PairTrade(cur, a, p).market;
      next := i + 1;
      done := total' >= quantityToRid;
      if done {
        SweepEnds(cur, a, tops, i, total, quantityToRid, price, fills, cur', total', price', fills');
      } else {
        SweepContinues(cur, a, tops, i, total, quantityToRid, price, fills, cur', next, total', price', fills');
      }
    }

    /** One pass of the loop of tradeMarketOrder: the pairwise trade against `p`, and `p`'s creator told of its fill. */
    method Strike(a: OrderId, p: OrderId, ghost inventories: map<AgentId, int>, ghost told: map<AgentId, bool>,
                  ghost fills: seq<Fill>)
      returns (volumeTraded: int)
      requires Holds(BookState(), a) && Holds(BookState(), p) && a != p
      requires AgentsKeyed() && orderMap.Keys <= agentMap.Keys
      requires CreditedSince(inventories, told, fills)
      modifies this`orders, this`buyOrders, this`sellOrders, this`orderMap
      modifies this`lastTradePrice, this`currAgVolumeBuySide, this`currAgVolumeSellSide
      modifies AgentSet()`inventory, AgentSet()`lastOrderTraded
      ensures MarketState() == Matching.PairTrade(old(MarketState()), a, p).market
      ensures volumeTraded == Matching.PairTrade(old(MarketState()), a, p).volume
      ensures CreditedSince(inventories, told, fills + [PassiveFill(old(MarketState()), a, p, volumeTraded)])
    {
      var passive := orders[p];
      var aggressorBuys := orders[a].isBuy;
      volumeTraded := PairTrade(a, p);
      Tell(Fill(passive.creator, Signed(!aggressorBuys, volumeTraded)), inventories, told, fills);
    }

    /** `agentMap.get(f.agent).setLastOrderTraded(true, f.volume)`, as one more fill since the snapshot. */
    method Tell(f: Fill, ghost inventories: map<AgentId, int>, ghost told: map<AgentId, bool>, ghost fills: seq<Fill>)
      requires AgentsKeyed() && f.agent in agentMap
      requires CreditedSince(inventories, told, fills)
      modifies AgentSet()`inventory, AgentSet()`lastOrderTraded
      ensures CreditedSince(inventories, told, fills + [f])
      ensures MarketState() == old(MarketState())
    {
      var agent := agentMap[f.agent];
      agent.SetLastOrderTraded(true, f.volume);
      forall k | k in agentMap && k in inventories && k in told
        ensures agentMap[k].inventory == inventories[k] + Credit(fills + [f], k)
        ensures agentMap[k].lastOrderTraded <==> told[k] || Notified(fills + [f], k)
      {
        CreditAppend(fills, f, k);
      }
    }

    /** Every registered agent's inventory. */
    function Inventories(): map<AgentId, int>
      reads this`agentMap, AgentSet()`inventory
    {
      map k | k in agentMap :: agentMap[k].inventory
    }

    /** Every registered agent's last-order-traded flag. */
    function Told(): map<AgentId, bool>
      reads this`agentMap, AgentSet()`lastOrderTraded
    {
      map k | k in agentMap :: agentMap[k].lastOrderTraded
    }

    /**
     * Against snapshots `inventories` and `told` of the agents, each
     * registered agent's inventory has grown by its credit in `fills`, and
     * its flag is raised exactly when it was or a fill names it.
     */
    ghost predicate CreditedSince(inventories: map<AgentId, int>, told: map<AgentId, bool>, fills: seq<Fill>)
      reads this`agentMap, AgentSet()`inventory, AgentSet()`lastOrderTraded
    {
      forall k :: k in agentMap && k in inventories && k in told ==>
        && agentMap[k].inventory == inventories[k] + Credit(fills, k)
        && (agentMap[k].lastOrderTraded <==> told[k] || Notified(fills, k))
    }

    /** topBuyOrders: the ten best bids, best first. */
    method TopBuyOrders() returns (r: seq<OrderId>)
      requires Valid()
      ensures r == TopOf(BookState(), true)
      ensures LeastK(HighFirst, orders, buyOrders, r, TopCount)
    {
      r := TopOrders(HighFirst, buyOrders);
      SortedNoDup(HighFirst, orders, buyOrders);
      TopIsLeastK(HighFirst, orders, buyOrders, TopCount);
    }

    /** topSellOrders: the ten best asks, lowest price first. */
    method TopSellOrders() returns (r: seq<OrderId>)
      requires Valid()
      ensures r == TopOf(BookState(), false)
      ensures LeastK(LowFirst, orders, sellOrders, r, TopCount)
    {
      r := TopOrders(LowFirst, sellOrders);
      SortedNoDup(HighFirst, orders, sellOrders);
      TopIsLeastK(LowFirst, orders, sellOrders, TopCount);
    }

    /** The loop shared by topBuyOrders and topSellOrders, over side `s` with `key`'s comparator. */
    method TopOrders(key: Key, s: seq<OrderId>) returns (top: seq<OrderId>)
      requires Known(orders, s)
      ensures top == Top(key, orders, s, TopCount)
    {
      top := [];
      for i := 0 to |s|
        invariant top == Top(key, orders, s[..i], TopCount)
      {
        TopStep(key, orders, s, i, TopCount);
        top := AdmitTop(key, top, s[i]);
      }
      assert s[..|s|] == s;
    }

    /** One pass of that loop: `o` joins the collection if there is room or it comes before the last. */
    method AdmitTop(key: Key, top: seq<OrderId>, o: OrderId) returns (top': seq<OrderId>)
      requires Known(orders, top) && o in orders
      ensures top' == Admit(key, orders, top, o, TopCount)
    {
      top' := top;
      if |top| < TopCount {
        top' := Insert(key, orders, top, o);
      } else if Before(key, orders[o], orders[top[|top| - 1]]) {
        top' := Insert(key, orders, top[..|top| - 1], o);
      }
    }

    /** getBestBid: a buy order of the highest price, the oldest at that price; `None` when there are no buy orders. */
    method GetBestBid() returns (r: Option<OrderId>)
      requires Valid()
      ensures r == Best(BookState(), true)
      ensures r.None? <==> |buyOrders| == 0
      ensures r.Some? ==> r.value in buyOrders && orders[r.value].isBuy
      ensures r.Some? ==> forall y :: y in buyOrders ==> orders[y].price <= orders[r.value].price
    {
      if |buyOrders| == 0 {
        r := None;
      } else {
        r := Some(buyOrders[0]);
      }
      BestIsBest(BookState(), true);
    }

    /** getBestAsk: a sell order of the lowest price, the newest at that price; `None` when there are no sell orders. */
    method GetBestAsk() returns (r: Option<OrderId>)
      requires Valid()
      ensures r == Best(BookState(), false)
      ensures r.None? <==> |sellOrders| == 0
      ensures r.Some? ==> r.value in sellOrders && !orders[r.value].isBuy
      ensures r.Some? ==> forall y :: y in sellOrders ==> orders[y].price >= orders[r.value].price
    {
      if |sellOrders| == 0 {
        r := None;
      } else {
        r := Some(sellOrders[|sellOrders| - 1]);
      }
      BestIsBest(BookState(), false);
    }

    /**
     * getBestBidQuantity: the `int` sum of the current quantities of all buy
     * orders at the best bid price. A side with no best order makes the
     * source throw, so one is required.
     */
    method GetBestBidQuantity() returns (quantity: int)
      requires Valid() && |buyOrders| > 0
      ensures quantity == Wrap(QuantityAt(orders, buyOrders, orders[buyOrders[0]].price))
    {
      var best := GetBestBid();
      quantity := QuantityFromFirst(orders, buyOrders, orders[best.value].price);
    }

    /** getBestAskQuantity: the `int` sum of the current quantities of all sell orders at the best ask price. */
    method GetBestAskQuantity() returns (quantity: int)
      requires Valid() && |sellOrders| > 0
      ensures quantity == Wrap(QuantityAt(orders, sellOrders, orders[sellOrders[|sellOrders| - 1]].price))
    {
      var best := GetBestAsk();
      quantity := QuantityFromLast(orders, sellOrders, orders[best.value].price);
    }

    /** reset: the current millisecond's aggressor volumes become the last millisecond's, and the current ones restart at 0. */
    method Reset()
      modifies this`lastAgVolumeBuySide, this`lastAgVolumeSellSide, this`currAgVolumeBuySide, this`currAgVolumeSellSide
      ensures lastAgVolumeBuySide == old(currAgVolumeBuySide) && lastAgVolumeSellSide == old(currAgVolumeSellSide)
      ensures currAgVolumeBuySide == 0 && currAgVolumeSellSide == 0
    {
      lastAgVolumeBuySide := currAgVolumeBuySide;
      lastAgVolumeSellSide := currAgVolumeSellSide;
      currAgVolumeBuySide := 0;
      currAgVolumeSellSide := 0;
    }

    /**
     * storeMovingAverage: records the current mid-point, polling the oldest
     * one first when more than MOVING_AVERAGE_LENGTH are kept; the moving
     * sum follows, so the invariant's window bound and sum are kept.
     */
    method StoreMovingAverage()
      requires Valid()
      modifies this`midpoints, this`movingSum
      ensures Valid()
      ensures midpoints == Slide(old(midpoints), MidPoint(BookState(), buyPrice), MovingAverageLength)
    {
      var midpoint := CurrentMidPoint();
      RecordMidPoint(midpoint);
    }

    /** The mid-point storeMovingAverage computes from the best bid and ask. */
    method CurrentMidPoint() returns (midpoint: int)
      requires Valid()
      ensures midpoint == MidPoint(BookState(), buyPrice)
    {
      var bid := GetBestBid();
      var ask := GetBestAsk();
      midpoint := if bid.None? || ask.None? then Wrap(buyPrice + 12)
        else Quot(Wrap(orders[bid.value].price + orders[ask.value].price), 2);
    }

    /** The updates of storeMovingAverage once the mid-point is known. */
    method RecordMidPoint(midpoint: int)
      requires Valid()
      modifies this`midpoints, this`movingSum
      ensures Valid()
      ensures midpoints == Slide(old(midpoints), midpoint, MovingAverageLength)
    {
      SlideKeepsSum(midpoints, movingSum, midpoint, MovingAverageLength);
      if |midpoints| > MovingAverageLength {
        movingSum := Wrap(movingSum - midpoints[0]);
        midpoints := midpoints[1..];
      }
      movingSum := Wrap(movingSum + midpoint);
      midpoints := midpoints + [midpoint];
    }

    /** getMovingAverage: the `int` sum of the kept mid-points divided by their number, truncated as Java divides. */
    method GetMovingAverage() returns (r: int)
      requires Valid() && |midpoints| > 0
      ensures r == Quot(Wrap(Sum(midpoints)), |midpoints|)
    {
      assert movingSum == Wrap(Sum(midpoints));
      r := Quot(movingSum, |midpoints|);
    }

    /** agentHasOrders: whether the agent has an order resting on either side. */
    method AgentHasOrders(agent: AgentId) returns (r: bool)
      requires Valid()
      ensures r <==> exists x :: x in orders && orders[x].creator == agent && (x in buyOrders || x in sellOrders)
    {
      r := !(agent !in orderMap || |orderMap[agent]| == 0);
      if r {
        var x := orderMap[agent][0];
        assert x in orderMap[agent];
        assert x in orders && orders[x].creator == agent && (x in buyOrders || x in sellOrders);
      } else {
        assert forall x :: x in orders && orders[x].creator == agent && (x in buyOrders || x in sellOrders) ==> x in ListOf(BookState(), agent);
      }
    }

    /**
     * getOldestOrder: the agent's order with the smallest ID, `None` when
     * it has none. The scan starts with no bound (see `Matching.OldestBelow`
     * for the scan as written, bounded by the clock).
     */
    method GetOldestOrder(agent: AgentId) returns (r: Option<OrderId>)
      requires Valid() && agent in orderMap
      ensures r == Oldest(orderMap[agent])
      ensures r.None? <==> !exists x :: x in orders && orders[x].creator == agent && (x in buyOrders || x in sellOrders)
      ensures r.Some? ==> r.value in orders && orders[r.value].creator == agent && (r.value in buyOrders || r.value in sellOrders)
      ensures r.Some? ==> forall x :: x in orderMap[agent] ==> r.value <= x
    {
      var list := orderMap[agent];
      r := None;
      for i := 0 to |list|
        invariant r == Oldest(list[..i])
      {
        assert list[..i + 1][..i] == list[..i];
        if r.None? || list[i] < r.value {
          r := Some(list[i]);
        }
      }
      assert list[..|list|] == list;
      assert forall x :: x in orders && orders[x].creator == agent && (x in buyOrders || x in sellOrders) ==> x in list;
    }

    /** incrementTime: the clock advances one millisecond. */
    method IncrementTime()
      modifies this`time
      ensures time == old(time) + 1
    {
      time := time + 1;
    }

    /** setStartingPeriod: trading is allowed exactly when the flag is off. */
    method SetStartingPeriod(isStartingPeriod: bool)
      modifies this`startingPeriod
      ensures startingPeriod == isStartingPeriod
    {
      startingPeriod := isStartingPeriod;
    }

    /** cancelAllSellOrders: cancels each of the agent's sell orders, in list order; its buy orders stay, in order. */
    method CancelAllSellOrders(agent: AgentId)
      requires Valid() && agent in orderMap
      modifies this`orders, this`buyOrders, this`sellOrders, this`orderMap
      ensures Valid()
      ensures BookState() == CancelEach(old(BookState()), OfSide(old(orders), old(orderMap[agent]), false))
      ensures agent in orderMap && orderMap[agent] == OfSide(old(orders), old(orderMap[agent]), true)
    {
      CancelAllOf(agent, false);
    }

    /** cancelAllBuyOrders: cancels each of the agent's buy orders, in list order; its sell orders stay, in order. */
    method CancelAllBuyOrders(agent: AgentId)
      requires Valid() && agent in orderMap
      modifies this`orders, this`buyOrders, this`sellOrders, this`orderMap
      ensures Valid()
      ensures BookState() == CancelEach(old(BookState()), OfSide(old(orders), old(orderMap[agent]), true))
      ensures agent in orderMap && orderMap[agent] == OfSide(old(orders), old(orderMap[agent]), false)
    {
      CancelAllOf(agent, true);
    }

    /**
     * The loop both share: an order of direction `buy` at the current index
     * is cancelled, which shifts the rest of the list down, so the index
     * only advances past an order that stays.
     */
    method CancelAllOf(agent: AgentId, buy: bool)
      requires Valid() && agent in orderMap
      modifies this`orders, this`buyOrders, this`sellOrders, this`orderMap
      ensures Valid()
      ensures BookState() == CancelEach(old(BookState()), OfSide(old(orders), old(orderMap[agent]), buy))
      ensures agent in orderMap && orderMap[agent] == OfSide(old(orders), old(orderMap[agent]), !buy)
    {
      ghost var b0 := BookState();
      ghost var list0 := orderMap[agent];
      ghost var k := 0;
      assert Matching.Valid(b0) && Known(b0.orders, list0);
      var currIndex := 0;
      while currIndex < |orderMap[agent]|
        invariant Matching.Valid(b0) && Known(b0.orders, list0)
        invariant Valid() && agent in orderMap && 0 <= k <= |list0|
        invariant orderMap[agent] == OfSide(b0.orders, list0[..k], !buy) + list0[k..]
        invariant currIndex == |OfSide(b0.orders, list0[..k], !buy)|
        invariant BookState() == CancelEach(b0, OfSide(b0.orders, list0[..k], buy))
        decreases |list0| - k
      {
        currIndex := CancelAt(agent, buy, currIndex, b0, list0, k);
        k := k + 1;
      }
      assert list0[..k] == list0;
    }

    /** One pass of that loop, on the `k`-th order of the agent's original list. */
    method CancelAt(agent: AgentId, buy: bool, currIndex: int, ghost b0: Book, ghost list0: seq<OrderId>, ghost k: int)
      returns (nextIndex: int)
      requires Valid() && agent in orderMap && 0 <= k < |list0| && Known(b0.orders, list0) && Matching.Valid(b0)
      requires orderMap[agent] == OfSide(b0.orders, list0[..k], !buy) + list0[k..]
      requires currIndex == |OfSide(b0.orders, list0[..k], !buy)|
      requires BookState() == CancelEach(b0, OfSide(b0.orders, list0[..k], buy))
      modifies this`orders, this`buyOrders, this`sellOrders, this`orderMap
      ensures Valid() && agent in orderMap
      ensures orderMap[agent] == OfSide(b0.orders, list0[..k + 1], !buy) + list0[k + 1..]
      ensures nextIndex == |OfSide(b0.orders, list0[..k + 1], !buy)|
      ensures BookState() == CancelEach(b0, OfSide(b0.orders, list0[..k + 1], buy))
    {
      CancelPass(b0, list0, k, buy, agent, BookState());
      var id := orderMap[agent][currIndex];
      assert id == list0[k];
      if orders[id].isBuy == buy {
        CancelOrder(id, false);
        nextIndex := currIndex;
      } else {
        nextIndex := currIndex + 1;
      }
    }
  }
}
