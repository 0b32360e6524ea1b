/**
 * The list-based matching engine of JinSup/src/MatchingEngine.java as a
 * class whose fields are the engine's own. Each order-handling method is
 * proved to leave the fields exactly as the functions of module
 * `ListMatching` say, to keep the book sound and the moving sum right, and
 * to make exactly the `setLastOrderTraded(true, volume)` calls those
 * functions report.
 *
 * The agents of this snapshot are not part of the model: the calls made on
 * them are recorded, in order, in the ghost field `told`. The CSV log
 * buffer, the depth-chart calls and the log file are side effects that
 * change none of these fields and are not modelled.
 */
module ListEngine {
  import opened JavaInt
  import opened Optional
  import opened Orders
  import opened OrderBook
  import opened ListMatching
  import Matching
  import EngineState

  class MatchingEngine {
    /** The order objects the engine has been handed, by ID, with their current fields. */
    var orders: Registry
    var allOrders: seq<OrderId>
    var orderMap: map<AgentId, seq<OrderId>>
    var lastAgVolumeBuySide: int
    var lastAgVolumeSellSide: int
    var currAgVolumeBuySide: int
    var currAgVolumeSellSide: int
    var lastTradePrice: int
    var startingPeriod: bool
    const buyPrice: int
    var midpoints: seq<int>
    var movingSum: int
    /** The `setLastOrderTraded(true, volume)` calls made so far, oldest first, as (agent ID, volume). */
    ghost var told: seq<Matching.Fill>

    /** The order-handling fields as a `ListBook`. */
    function Book(): ListBook
      reads this`orders, this`allOrders, this`orderMap
    {
      ListBook(orders, allOrders, orderMap)
    }

    /** The fields the trading methods update, as a `ListMarket`. */
    function Market(): ListMarket
      reads this`orders, this`allOrders, this`orderMap
      reads this`lastTradePrice, this`lastAgVolumeBuySide, this`lastAgVolumeSellSide
      reads this`currAgVolumeBuySide, this`currAgVolumeSellSide
    {
      ListMarket(Book(), lastTradePrice, lastAgVolumeBuySide, lastAgVolumeSellSide,
                 currAgVolumeBuySide, currAgVolumeSellSide)
    }

    /** The engine's invariant: a sound book, and the moving sum is the `int` sum of the kept mid-points. */
    ghost predicate Valid()
      reads this`orders, this`allOrders, this`orderMap, this`midpoints, this`movingSum
    {
      Sound(Book()) && movingSum == Wrap(EngineState.Sum(midpoints))
    }

    /** The constructor: no orders, no lists, every volume and the last trade price 0, the starting period on. */
    constructor (buyPrice: int)
      ensures Valid()
      ensures orders == map[] && allOrders == [] && orderMap == map[]
      ensures lastAgVolumeBuySide == 0 && lastAgVolumeSellSide == 0
      ensures currAgVolumeBuySide == 0 && currAgVolumeSellSide == 0
      ensures lastTradePrice == 0 && startingPeriod
      ensures midpoints == [] && movingSum == 0 && told == []
      ensures this.buyPrice == buyPrice
    {
      orders := map[];
      allOrders := [];
      orderMap := map[];
      midpoints := [];
      lastAgVolumeBuySide := 0;
      lastAgVolumeSellSide := 0;
      currAgVolumeBuySide := 0;
      currAgVolumeSellSide := 0;
      lastTradePrice := 0;
      startingPeriod := true;
      movingSum := 0;
      this.buyPrice := buyPrice;
      told := [];
    }

    /** cancelOrder: out of `allOrders` and its creator's list, with quantity 0. */
    method CancelOrder(id: OrderId, market: bool)
      requires Valid() && id in orders
      modifies this`orders, this`allOrders, this`orderMap
      ensures Valid()
      ensures Book() == Cancel(old(Book()), id)
    {
      ghost var b0 := Book();
      Withdraw(id);
      CancelKeepsSound(b0, id);
    }

    /** The removals of cancelOrder, also made by the pairwise trade. */
    method Withdraw(id: OrderId)
      requires Holds(Book(), id)
      modifies this`orders, this`allOrders, this`orderMap
      ensures Book() == Cancel(old(Book()), id)
    {
      allOrders := RemoveFirst(allOrders, id);
      var creator := orders[id].creator;
      orderMap := orderMap[creator := RemoveFirst(orderMap[creator], id)];
      orders := orders[id := orders[id].SetQuant(0)];
    }

    /** createOrder's bookkeeping: the order goes to the end of `allOrders` and of its creator's list, created when absent. */
    method Enter(o: Order)
      modifies this`orders, this`allOrders, this`orderMap
      ensures Book() == Create(old(Book()), o)
    {
      allOrders := allOrders + [o.id];
      if o.creator in orderMap {
        orderMap := orderMap[o.creator := orderMap[o.creator] + [o.id]];
      } else {
        orderMap := orderMap[o.creator := [o.id]];
        assert [] + [o.id] == [o.id];
      }
      orders := orders[o.id := o];
    }

    /** The bookkeeping of createOrder, keeping the engine's invariant. */
    method Accept(o: Order)
      requires Valid() && o.id !in orders
      modifies this`orders, this`allOrders, this`orderMap
      ensures Valid()
      ensures Market() == old(Market()).(book := Create(old(Book()), o))
      ensures Holds(Book(), o.id)
    {
      ghost var b0 := Book();
      Enter(o);
      CreateKeepsSound(b0, o);
    }

    /**
     * The private `trade(Order, Order)` of aggressor `a` against passive
     * `p`: the last trade price becomes the passive price, then the
     * quantities are settled, then logExtraTrades adds the returned volume
     * to the passive side's current aggressor volume.
     */
    method PairTrade(a: OrderId, p: OrderId) returns (volumeTraded: int)
      requires Holds(Book(), a) && Holds(Book(), p)
      modifies this`orders, this`allOrders, this`orderMap
      modifies this`lastTradePrice, this`currAgVolumeBuySide, this`currAgVolumeSellSide
      ensures Market() == PairAsWritten(old(Market()), a, p).market
      ensures volumeTraded == PairAsWritten(old(Market()), a, p).volume
    {
      var passive := orders[p];
      lastTradePrice := passive.price;
      volumeTraded := Exchange(a, p);
      // logExtraTrades
      if passive.isBuy {
        currAgVolumeBuySide := currAgVolumeBuySide + volumeTraded;
      } else {
        currAgVolumeSellSide := currAgVolumeSellSide + volumeTraded;
      }
    }

    /**
     * The quantity updates of the pairwise trade: with equal quantities both
     * orders are removed and zeroed, otherwise the larger is set to the
     * difference and the smaller removed and zeroed; the returned volume is
     * that quantity or that difference.
     */
    method Exchange(a: OrderId, p: OrderId) returns (volumeTraded: int)
      requires Holds(Book(), a) && Holds(Book(), p)
      modifies this`orders, this`allOrders, this`orderMap
      ensures (Book(), volumeTraded) == PairBook(old(Book()), a, p)
    {
      var o1 := orders[a];
      var o2 := orders[p];
      if o1.currentQuant == o2.currentQuant {
        volumeTraded := o1.currentQuant;
        Withdraw(a);
        Withdraw(p);
      } else if o1.currentQuant > o2.currentQuant {
        volumeTraded := o1.currentQuant - o2.currentQuant;
        orders := orders[a := o1.SetQuant(volumeTraded)];
        Withdraw(p);
      } else {
        volumeTraded := o2.currentQuant - o1.currentQuant;
        orders := orders[p := o2.SetQuant(volumeTraded)];
        Withdraw(a);
      }
    }

    /** willTrade: the opposite orders of `allOrders` at exactly the incoming price, or `None` for Java's `null`. */
    method WillTrade(o: Order) returns (r: Option<seq<OrderId>>)
      requires Known(orders, allOrders)
      ensures r == ListMatching.WillTrade(Book(), o)
    {
      var samePrice: seq<OrderId> := [];
      for i := 0 to |allOrders|
        invariant samePrice == SamePriced(orders, allOrders[..i], o)
      {
        SamePricedStep(orders, allOrders, i, o);
        var x := orders[allOrders[i]];
        if x.isBuy != o.isBuy && x.price == o.price {
          samePrice := samePrice + [allOrders[i]];
        }
      }
      assert allOrders[..|allOrders|] == allOrders;
      r := if |samePrice| == 0 then None else Some(samePrice);
    }

    /**
     * `trade(Order, ArrayList)`: without candidates nothing happens; in the
     * starting period the order is cancelled; otherwise it trades against
     * the candidate highestFirstComparator puts first.
     */
    method Trade(id: OrderId, cands: Option<seq<OrderId>>) returns (traded: bool)
      requires Valid() && id in orders && Candidates(Book(), cands)
      modifies this`orders, this`allOrders, this`orderMap
      modifies this`lastTradePrice, this`lastAgVolumeBuySide, this`lastAgVolumeSellSide
      modifies this`currAgVolumeBuySide, this`currAgVolumeSellSide, this`told
      ensures Valid()
      ensures traded == Matching.LimitTraded(cands, startingPeriod)
      ensures Market() == LimitTrade(old(Market()), id, cands, startingPeriod).market
      ensures told == old(told) + LimitTrade(old(Market()), id, cands, startingPeriod).fills
    {
      if cands.None? {
        return false;
      }
      if startingPeriod {
        CancelOrder(id, true);
        return false;
      }
      MatchValid(id, cands.value);
      traded := true;
    }

    /** The trading case of `trade(Order, ArrayList)`, keeping the engine's invariant. */
    method MatchValid(id: OrderId, c: seq<OrderId>)
      requires Valid() && id in orders && Candidates(Book(), Some(c))
      modifies this`orders, this`allOrders, this`orderMap
      modifies this`lastTradePrice, this`lastAgVolumeBuySide, this`lastAgVolumeSellSide
      modifies this`currAgVolumeBuySide, this`currAgVolumeSellSide, this`told
      ensures Valid()
      ensures Market() == Matched(old(Market()), id, c).market
      ensures told == old(told) + Matched(old(Market()), id, c).fills
    {
      ghost var m0 := Market();
      Match(id, c);
      LimitTradeKeepsSound(m0, id, Some(c), false);
    }

    /**
     * The trading half of `trade(Order, ArrayList)`: the last trade price
     * becomes the first candidate's, the order trades against the candidate
     * sorted first, the aggressor's side gets the volume as last and current
     * aggressor volume, and both agents are told of it.
     */
    method Match(id: OrderId, c: seq<OrderId>)
      requires KeyedById(orders) && Holds(Book(), id) && Candidates(Book(), Some(c))
      modifies this`orders, this`allOrders, this`orderMap
      modifies this`lastTradePrice, this`lastAgVolumeBuySide, this`lastAgVolumeSellSide
      modifies this`currAgVolumeBuySide, this`currAgVolumeSellSide, this`told
      ensures Market() == Matched(old(Market()), id, c).market
      ensures told == old(told) + Matched(old(Market()), id, c).fills
    {
      ghost var m0 := Market();
      assert Known(orders, c) by {
        forall x | x in c
          ensures x in orders
        {
          var i :| 0 <= i < |c| && c[i] == x;
        }
      }
      var o := orders[id];
      lastTradePrice := orders[c[0]].price;
      // Collections.sort with highestFirstComparator, then get(0)
      var p := Least(HighFirst, orders, c);
      assert Holds(Book(), p) by {
        var i :| 0 <= i < |c| && c[i] == p;
      }
      var passive := orders[p];
      ghost var t := PairAsWritten(Market(), id, p);
      var volumeTraded := PairTrade(id, p);
      Settle(o, passive.creator, volumeTraded);
      MatchedIs(m0, id, c, p, t);
    }

    /**
     * What `trade(Order, ArrayList)` does after the pairwise trade: the
     * aggressor's side gets the volume as last aggressor volume, both agents
     * are told of it, and logAggressiveTrader adds it to the aggressor
     * side's current aggressor volume.
     */
    method Settle(o: Order, passiveCreator: AgentId, volumeTraded: int)
      modifies this`lastAgVolumeBuySide, this`lastAgVolumeSellSide
      modifies this`currAgVolumeBuySide, this`currAgVolumeSellSide, this`told
      ensures Market() == old(Market()).AddLast(o.isBuy, volumeTraded).AddCurr(o.isBuy, volumeTraded)
      ensures told == old(told) + [Matching.Fill(o.creator, volumeTraded), Matching.Fill(passiveCreator, volumeTraded)]
    {
      if o.isBuy {
        lastAgVolumeBuySide := lastAgVolumeBuySide + volumeTraded;
      } else {
        lastAgVolumeSellSide := lastAgVolumeSellSide + volumeTraded;
      }
      told := told + [Matching.Fill(o.creator, volumeTraded), Matching.Fill(passiveCreator, volumeTraded)];
      // logAggressiveTrader
      if o.isBuy {
        currAgVolumeBuySide := currAgVolumeBuySide + volumeTraded;
      } else {
        currAgVolumeSellSide := currAgVolumeSellSide + volumeTraded;
      }
    }

    /**
     * createOrder: the order joins `allOrders` and its creator's list; a
     * limit order then trades through willTrade and
     * `trade(Order, ArrayList)`. The result says whether it traded.
     */
    method CreateOrder(o: Order, market: bool) returns (traded: bool)
      requires Valid() && o.id !in orders
      modifies this`orders, this`allOrders, this`orderMap
      modifies this`lastTradePrice, this`lastAgVolumeBuySide, this`lastAgVolumeSellSide
      modifies this`currAgVolumeBuySide, this`currAgVolumeSellSide, this`told
      ensures Valid()
      ensures traded == CreateTraded(old(Book()), o, market, startingPeriod)
      ensures Market() == ListMatching.CreateOrder(old(Market()), o, market, startingPeriod).market
      ensures told == old(told) + ListMatching.CreateOrder(old(Market()), o, market, startingPeriod).fills
    {
      ghost var m0 := Market();
      Accept(o);
      if market {
        return false;
      }
      WillTradeCandidates(Book(), o);
      var samePrice := WillTrade(o);
      assert LimitTrade(Market(), o.id, samePrice, startingPeriod) == ListMatching.CreateOrder(m0, o, false, startingPeriod);
      traded := Trade(o.id, samePrice);
    }

    /**
     * modifyOrder: the order takes its new price and quantity in place
     * (`allOrders` is unsorted, so nothing moves), then trades through
     * willTrade and `trade(Order, ArrayList)`.
     */
    method ModifyOrder(id: OrderId, newPrice: int, newQuant: int) returns (traded: bool)
      requires Valid() && id in orders
      modifies this`orders, this`allOrders, this`orderMap
      modifies this`lastTradePrice, this`lastAgVolumeBuySide, this`lastAgVolumeSellSide
      modifies this`currAgVolumeBuySide, this`currAgVolumeSellSide, this`told
      ensures Valid()
      ensures traded == ModifyTraded(old(Book()), id, newPrice, newQuant, startingPeriod)
      ensures Market() == Modify(old(Market()), id, newPrice, newQuant, startingPeriod).market
      ensures told == old(told) + Modify(old(Market()), id, newPrice, newQuant, startingPeriod).fills
    {
      ghost var m0 := Market();
      ghost var b0 := Book();
      orders := orders[id := orders[id].SetPrice(newPrice).SetQuant(newQuant)];
      RepriceKeepsSound(b0, id, newPrice, newQuant);
      WillTradeCandidates(Book(), orders[id]);
      var samePrice := WillTrade(orders[id]);
      assert LimitTrade(Market(), id, samePrice, startingPeriod) == Modify(m0, id, newPrice, newQuant, startingPeriod);
      traded := Trade(id, samePrice);
    }

    /** The orders of `allOrders` of one direction, in their order there, as getBestBid and getBestAsk collect them. */
    method Collect(buy: bool) returns (side: seq<OrderId>)
      requires Known(orders, allOrders)
      ensures side == Matching.OfSide(orders, allOrders, buy)
    {
      side := [];
      for i := 0 to |allOrders|
        invariant side == Matching.OfSide(orders, allOrders[..i], buy)
      {
        Matching.OfSideStep(orders, allOrders, i, buy);
        if orders[allOrders[i]].isBuy == buy {
          side := side + [allOrders[i]];
        }
      }
      assert allOrders[..|allOrders|] == allOrders;
    }

    /**
     * topBuyOrders: at most ten buy orders, sorted by highestFirstComparator,
     * all of them when there are fewer, none left out priced above one kept.
     */
    method TopBuyOrders() returns (r: seq<OrderId>)
      requires Valid()
      ensures r == ListMatching.TopBuyOrders(Book())
      ensures HighestK(orders, Matching.OfSide(orders, allOrders, true), r, Matching.TopCount)
    {
      r := CollectTopBuys();
      TopOrdersAreBest(Book());
    }

    /** The loop of topBuyOrders over `allOrders`. */
    method CollectTopBuys() returns (r: seq<OrderId>)
      requires Known(orders, allOrders)
      ensures r == ListMatching.TopBuyOrders(Book())
    {
      r := [];
      for i := 0 to |allOrders|
        invariant r == TopBuys(orders, Matching.OfSide(orders, allOrders[..i], true))
      {
        Matching.OfSideStep(orders, allOrders, i, true);
        var x := allOrders[i];
        if orders[x].isBuy {
          TopBuysAppend(orders, Matching.OfSide(orders, allOrders[..i], true), x);
          r := AdmitBuyOrder(r, x);
        } else {
          assert Matching.OfSide(orders, allOrders[..i + 1], true) == Matching.OfSide(orders, allOrders[..i], true);
        }
      }
      assert allOrders[..|allOrders|] == allOrders;
    }

    /**
     * One pass of topBuyOrders' loop for buy order `x`: added while fewer
     * than ten are kept, else put in place of the tenth when the instance
     * `compare` puts it first; a sort with highestFirstComparator follows.
     */
    method AdmitBuyOrder(top: seq<OrderId>, x: OrderId) returns (top': seq<OrderId>)
      requires Known(orders, top) && x in orders && |top| <= Matching.TopCount
      ensures top' == AdmitBuy(orders, top, x)
    {
      top' := top;
      if |top| < Matching.TopCount {
        top' := Insert(HighFirst, orders, top, x);
      } else if NewestBefore(orders[x], orders[top[Matching.TopCount - 1]]) {
        top' := Insert(HighFirst, orders, top[..Matching.TopCount - 1], x);
      }
    }

    /** topSellOrders: the ten (or all) sell orders lowestFirstComparator puts first, in that order. */
    method TopSellOrders() returns (r: seq<OrderId>)
      requires Valid()
      ensures r == ListMatching.TopSellOrders(Book())
      ensures LeastK(LowFirst, orders, Matching.OfSide(orders, allOrders, false), r, Matching.TopCount)
    {
      r := CollectTopSells();
      TopOrdersAreBest(Book());
    }

    /** The loop of topSellOrders over `allOrders`. */
    method CollectTopSells() returns (r: seq<OrderId>)
      requires Known(orders, allOrders)
      ensures r == ListMatching.TopSellOrders(Book())
    {
      r := [];
      for i := 0 to |allOrders|
        invariant r == Top(LowFirst, orders, Matching.OfSide(orders, allOrders[..i], false), Matching.TopCount)
      {
        Matching.OfSideStep(orders, allOrders, i, false);
        var x := allOrders[i];
        if !orders[x].isBuy {
          TopAppend(LowFirst, orders, Matching.OfSide(orders, allOrders[..i], false), x, Matching.TopCount);
          r := AdmitSellOrder(r, x);
        } else {
          assert Matching.OfSide(orders, allOrders[..i + 1], false) == Matching.OfSide(orders, allOrders[..i], false);
        }
      }
      assert allOrders[..|allOrders|] == allOrders;
    }

    /**
     * One pass of topSellOrders' loop for sell order `x`: added while fewer
     * than ten are kept, else put in place of the tenth when
     * lowestFirstComparator puts it first; a sort with that comparator follows.
     */
    method AdmitSellOrder(top: seq<OrderId>, x: OrderId) returns (top': seq<OrderId>)
      requires Known(orders, top) && x in orders && |top| <= Matching.TopCount
      ensures top' == Admit(LowFirst, orders, top, x, Matching.TopCount)
    {
      top' := top;
      if |top| < Matching.TopCount {
        top' := Insert(LowFirst, orders, top, x);
      } else if LowBefore(orders[x], orders[top[Matching.TopCount - 1]]) {
        top' := Insert(LowFirst, orders, top[..Matching.TopCount - 1], x);
      }
    }

    /**
     * getBestBid: the buy orders sorted by highestFirstComparator, the first
     * taken: a highest-priced buy, the oldest at that price; `None` for
     * Java's `null` when there is no buy order.
     */
    method GetBestBid() returns (r: Option<OrderId>)
      requires Valid()
      ensures r == BestOf(Book(), true)
      ensures r.None? <==> forall x :: x in allOrders ==> !orders[x].isBuy
      ensures r.Some? ==> r.value in allOrders && orders[r.value].isBuy
      ensures r.Some? ==> forall x :: x in allOrders && orders[x].isBuy && x != r.value ==> HighBefore(orders[r.value], orders[x])
    {
      var bids := Collect(true);
      if |bids| == 0 {
        r := None;
      } else {
        r := Some(Least(HighFirst, orders, bids));
      }
      BestOfIsBest(Book(), true);
    }

    /**
     * getBestAsk: the sell orders sorted by highestFirstComparator, the
     * last taken: a lowest-priced sell, the newest at that price; `None`
     * when there is no sell order.
     */
    method GetBestAsk() returns (r: Option<OrderId>)
      requires Valid()
      ensures r == BestOf(Book(), false)
      ensures r.None? <==> forall x :: x in allOrders ==> orders[x].isBuy
      ensures r.Some? ==> r.value in allOrders && !orders[r.value].isBuy
      ensures r.Some? ==> forall x :: x in allOrders && !orders[x].isBuy && x != r.value ==>
                orders[r.value].price < orders[x].price || (orders[r.value].price == orders[x].price && r.value > x)
    {
      var asks := Collect(false);
      if |asks| == 0 {
        r := None;
      } else {
        r := Some(Greatest(HighFirst, orders, asks));
      }
      BestOfIsBest(Book(), false);
    }

    /** setStartingPeriod. */
    method SetStartingPeriod(isStartingPeriod: bool)
      modifies this`startingPeriod
      ensures startingPeriod == isStartingPeriod
    {
      startingPeriod := isStartingPeriod;
    }

    /** reset: the current aggressor volumes become the last period's, and the current ones restart at 0. */
    method Reset()
      modifies this`lastAgVolumeBuySide, this`lastAgVolumeSellSide, this`currAgVolumeBuySide, this`currAgVolumeSellSide
      ensures lastAgVolumeBuySide == old(currAgVolumeBuySide) && lastAgVolumeSellSide == old(currAgVolumeSellSide)
      ensures currAgVolumeBuySide == 0 && currAgVolumeSellSide == 0
    {
      lastAgVolumeBuySide := currAgVolumeBuySide;
      lastAgVolumeSellSide := currAgVolumeSellSide;
      currAgVolumeBuySide := 0;
      currAgVolumeSellSide := 0;
    }

    /**
     * storeMovingAverage(n): records the current mid-point, polling the
     * oldest one first when more than `n` are kept; the moving sum follows,
     * and a window of at most `n + 1` mid-points stays so. Polling an empty
     * queue yields `null`, which the subtraction cannot unbox, so a negative
     * `n` needs a mid-point kept.
     */
    method StoreMovingAverage(n: int)
      requires Valid() && (n >= 0 || |midpoints| > 0)
      modifies this`midpoints, this`movingSum
      ensures Valid()
      ensures midpoints == EngineState.Slide(old(midpoints), ListMatching.MidPoint(Book(), buyPrice), n)
      ensures |old(midpoints)| <= n + 1 ==> |midpoints| <= n + 1
    {
      var midpoint := CurrentMidPoint();
      RecordMidPoint(midpoint, n);
    }

    /** The mid-point storeMovingAverage computes from the best bid and ask. */
    method CurrentMidPoint() returns (midpoint: int)
      requires Valid()
      ensures midpoint == ListMatching.MidPoint(Book(), buyPrice)
    {
      var bid := GetBestBid();
      var ask := GetBestAsk();
      midpoint := if bid.None? || ask.None? then Wrap(buyPrice + 12)
        else Quot(Wrap(orders[bid.value].price + orders[ask.value].price), 2);
    }

    /** The updates of storeMovingAverage once the mid-point is known. */
    method RecordMidPoint(midpoint: int, n: int)
      requires movingSum == Wrap(EngineState.Sum(midpoints)) && (n >= 0 || |midpoints| > 0)
      modifies this`midpoints, this`movingSum
      ensures movingSum == Wrap(EngineState.Sum(midpoints))
      ensures midpoints == EngineState.Slide(old(midpoints), midpoint, n)
      ensures |old(midpoints)| <= n + 1 ==> |midpoints| <= n + 1
    {
      EngineState.SlideKeepsSum(midpoints, movingSum, midpoint, n);
      if |midpoints| > n {
        movingSum := Wrap(movingSum - midpoints[0]);
        midpoints := midpoints[1..];
      }
      movingSum := Wrap(movingSum + midpoint);
      midpoints := midpoints + [midpoint];
    }

    /** getMovingAverage: the `int` sum of the kept mid-points divided by their number, truncated as Java divides. */
    method GetMovingAverage() returns (r: int)
      requires Valid() && |midpoints| > 0
      ensures r == Quot(Wrap(EngineState.Sum(midpoints)), |midpoints|)
    {
      r := Quot(movingSum, |midpoints|);
    }

    /**
     * tradeMarketOrder: the order is created as a market order; in the
     * starting period it is cancelled at once; otherwise it is swept
     * against the opposite top ten.
     */
    method TradeMarketOrder(o: Order)
      requires Valid() && o.id !in orders
      modifies this`orders, this`allOrders, this`orderMap
      modifies this`lastTradePrice, this`lastAgVolumeBuySide, this`lastAgVolumeSellSide
      modifies this`currAgVolumeBuySide, this`currAgVolumeSellSide, this`told
      ensures Valid()
      ensures Market() == MarketOrder(old(Market()), o, startingPeriod).market
      ensures told == old(told) + MarketOrder(old(Market()), o, startingPeriod).fills
    {
      ghost var m0 := Market();
      // createOrder(order, true)
      Accept(o);
      if startingPeriod {
        CancelOrder(o.id, true);
        return;
      }
      assert SweepPlaced(Market(), o.id) == MarketOrder(m0, o, false);
      SweepValid(o.id);
    }

    /** tradeMarketOrder once the order is in the book, keeping the engine's invariant. */
    method SweepValid(a: OrderId)
      requires Valid() && Holds(Book(), a)
      modifies this`orders, this`allOrders, this`orderMap
      modifies this`lastTradePrice, this`lastAgVolumeBuySide, this`lastAgVolumeSellSide
      modifies this`currAgVolumeBuySide, this`currAgVolumeSellSide, this`told
      ensures Valid()
      ensures Market() == SweepPlaced(old(Market()), a).market
      ensures told == old(told) + SweepPlaced(old(Market()), a).fills
    {
      var o := orders[a];
      var tops := OppositeTops(o.isBuy);
      if |tops| == 0 {
        // nothing was traded; the order is cancelled
        CancelOrder(a, true);
      } else {
        SweepPlacedKeepsSound(Market(), a);
        SweepAgainst(a, tops);
      }
    }

    /** The top ten orders of the side opposite to `buy`, every one of them held. */
    method OppositeTops(buy: bool) returns (tops: seq<OrderId>)
      requires Valid()
      ensures tops == TopOpposite(Book(), buy) && AllHeld(Book(), tops)
    {
      if buy {
        tops := TopSellOrders();
      } else {
        tops := TopBuyOrders();
      }
      TopOppositeHeld(Book(), buy);
    }

    /**
     * The loop of tradeMarketOrder and what follows it: the aggressor is
     * told of the total, its side gets the total as last and current
     * aggressor volume, and the last trade price is the last passive price.
     */
    method SweepAgainst(a: OrderId, tops: seq<OrderId>)
      requires Sound(Book()) && Holds(Book(), a) && |tops| > 0 && AllHeld(Book(), tops)
      requires tops == TopOpposite(Book(), orders[a].isBuy)
      modifies this`orders, this`allOrders, this`orderMap
      modifies this`lastTradePrice, this`lastAgVolumeBuySide, this`lastAgVolumeSellSide
      modifies this`currAgVolumeBuySide, this`currAgVolumeSellSide, this`told
      ensures Market() == SweepPlaced(old(Market()), a).market
      ensures told == old(told) + SweepPlaced(old(Market()), a).fills
    {
      ghost var m0 := Market();
      var o := orders[a];
      var total, price, fills := SweepLoop(a, tops, o.currentQuant);
      SweepPlacedSwept(m0, a, tops, Market(), total, price, fills);
      RecordSweep(o.creator, o.isBuy, total, price);
    }

    /**
     * The loop of tradeMarketOrder: the aggressor `a` trades against the
     * top orders in turn (the source drops the head of its list instead of
     * advancing an index), each passive agent is told of the volume, and the
     * loop stops once the total reaches `quantityToRid` or the list runs out.
     */
    method SweepLoop(a: OrderId, tops: seq<OrderId>, quantityToRid: int)
      returns (total: int, price: int, ghost fills: seq<Matching.Fill>)
      requires Holds(Book(), a) && AllHeld(Book(), tops)
      modifies this`orders, this`allOrders, this`orderMap
      modifies this`lastTradePrice, this`currAgVolumeBuySide, this`currAgVolumeSellSide, this`told
      ensures Sweep(old(Market()), a, tops, 0, 0, quantityToRid, 0, []) == ListSwept(Market(), total, price, fills)
      ensures told == old(told) + fills
    {
      ghost var base := told;
      ghost var cur := Market();
      fills := [];
      ghost var goal := Sweep(cur, a, tops, 0, 0, quantityToRid, 0, []);
      total, price := 0, 0;
      var i := 0;
      while i < |tops|
        invariant 0 <= i <= |tops|
        invariant Market() == cur
        invariant SweepsTo(cur, a, tops, i, total, quantityToRid, price, fills, goal)
        invariant told == base + fills
        decreases |tops| - i
      {
        var done;
        i, total, price, done, cur, fills := SweepPass(a, tops, i, quantityToRid, total, price, cur, fills, base, goal);
        if done {
          return;
        }
      }
      SweepExhausted(cur, a, tops, i, total, quantityToRid, price, fills);
    }

    /**
     * One pass of the loop of tradeMarketOrder: a trade against the `i`-th
     * top order, its creator told of the volume, and `done` once the total
     * reaches `quantityToRid`; the sweep still comes to `goal`.
     */
    method SweepPass(a: OrderId, tops: seq<OrderId>, i: int, quantityToRid: int, total: int, price: int,
                     ghost cur: ListMarket, ghost fills: seq<Matching.Fill>, ghost base: seq<Matching.Fill>,
                     ghost goal: ListSwept)
      returns (next: int, total': int, price': int, done: bool, ghost cur': ListMarket, ghost fills': seq<Matching.Fill>)
      requires 0 <= i < |tops| && Market() == cur
      requires SweepsTo(cur, a, tops, i, total, quantityToRid, price, fills, goal)
      requires told == base + fills
      modifies this`orders, this`allOrders, this`orderMap
      modifies this`lastTradePrice, this`currAgVolumeBuySide, this`currAgVolumeSellSide, this`told
      ensures next == i + 1 && Market() == cur' && told == base + fills'
      ensures done ==> goal == ListSwept(cur', total', price', fills')
      ensures !done ==> SweepsTo(cur', a, tops, next, total', quantityToRid, price', fills', goal)
    {
      var p := tops[i];
      assert Holds(cur.book, p);
      price' := orders[p].price;
      var passive := orders[p].creator;
      var v := PairTrade(a, p);
      ghost var t := PairAsWritten(cur, a, p);
      cur' := t.market;
      total' := total + v;
      // notify the non aggressor
      told := told + [Matching.Fill(passive, v)];
      fills' := fills + [Matching.Fill(passive, v)];
      next := i + 1;
      done := total' >= quantityToRid;
      if done {
        SweepEnds(cur, a, tops, i, total, quantityToRid, price, fills, t);
      } else {
        SweepStep(cur, a, tops, i, total, quantityToRid, price, fills, goal, t, total', price', fills');
      }
    }

    /**
     * After the loop of tradeMarketOrder: the aggressor `creator` is told of
     * the total, the total goes to the aggressor's side as last aggressor
     * volume, the last passive price becomes the last trade price, and
     * logAggressiveTrader adds the total to the current aggressor volume.
     */
    method RecordSweep(creator: AgentId, buy: bool, total: int, price: int)
      modifies this`lastTradePrice, this`lastAgVolumeBuySide, this`lastAgVolumeSellSide
      modifies this`currAgVolumeBuySide, this`currAgVolumeSellSide, this`told
      ensures Market() == old(Market()).AddLast(buy, total).(lastTradePrice := price).AddCurr(buy, total)
      ensures told == old(told) + [Matching.Fill(creator, total)]
    {
      told := told + [Matching.Fill(creator, total)];
      if buy {
        lastAgVolumeBuySide := lastAgVolumeBuySide + total;
      } else {
        lastAgVolumeSellSide := lastAgVolumeSellSide + total;
      }
      lastTradePrice := price;
      if buy {
        currAgVolumeBuySide := currAgVolumeBuySide + total;
      } else {
        currAgVolumeSellSide := currAgVolumeSellSide + total;
      }
    }
  }
}
