# JinSup matching core in Dafny

JinSup is a simulator of a limit-order book. Agents post, modify and cancel
limit orders and send market orders. A matching engine keeps the book and
pairs aggressive orders with resting ones. It tells each agent its fills and
keeps the aggressor volumes and a moving average of the mid-price that the
agents read. This project models that core and proves what it promises:

- **`Orders`** (`orders.dfy`): the `Order` record and its ID counter, and the
  three comparators. The comparators are modelled as written, with `int`
  narrowing, and proved to agree with the intended orders.
- **`OrderBook`** (`order_book.dfy`): sorted ID sequences standing for
  `TreeSet`s, insertion and removal, quantity at a price, and the top-ten
  selection loop.
- **`Matching`** (`matching_spec.dfy`): what the current engine
  (`src/edu/virginia/jinsup/MatchingEngine.java`) does to its book, as
  functions on values: placing, cancelling, the pairwise trade, limit
  matching, market-order sweeps, modification and bulk cancellation. The
  lemmas prove that the book invariant is kept, that a trade fills
  min(q1, q2) shares, that the fills net to zero, and that the order matched
  is the oldest at the price.
- **`EngineState` / `Engine`** (`engine.dfy`): the engine as a class whose
  fields are the engine's own. Every method is proved to change the fields
  exactly as the `Matching` functions say, and to credit every agent with
  exactly the fills they report.
- **`Agents`** (`agents.dfy`): an agent's ID counter, inventory, schedule
  flags, `compareTo` and the mid-point helper.
- **`DelayLine`** (`delay_line.dfy`): `IntelligentAgentHelper`, the
  circular buffer over two `int` arrays. Each read returns what was added
  exactly `delayLength` additions earlier, or 0 before that.
- **`ListMatching` / `ListEngine`** (`list_matching.dfy`,
  `list_engine.dfy`): the earlier list-based engine
  (`JinSup/src/MatchingEngine.java`), again as functions on values and as a
  class proved against them.
- **`Graph`** (`graph_frame.dfy`): the bookkeeping of the chart window. It
  covers the depth-of-book map, the trade-price range that decides when the
  axis is resized, and the simulation clock of the title bar.
- **`LogParse`** (`parse_log.dfy`): the re-parser of the simulator's CSV log.
  It decodes each row column by column, files each transaction under its
  agent and order, and files the best bid and ask under the row's time.
- **`JavaInt`**, **`Optional`**: Java `int` wrap-around and truncating
  division, and an `Option` type standing for Java's `null`.

Orders are records in a registry `map<OrderId, Order>`. The sides and the
agents' lists hold order IDs. This is how the model captures the Java
aliasing of one `Order` object reachable from a `TreeSet`, an agent's list
and the caller. `setQuant` and `setPrice` are updates of the registry entry.

## Model

| member | source | states |
|---|---|---|
| JavaInt.Wrap | src/edu/virginia/jinsup/MatchingEngine.java:452-465 | the result is a Java `int` and differs from the exact value by a multiple of 2^32 |
| JavaInt.WrapInRange | src/edu/virginia/jinsup/MatchingEngine.java:452-465 | wrapping an `int` leaves it unchanged |
| JavaInt.WrapAdd | src/edu/virginia/jinsup/MatchingEngine.java:631-640 | wrapping after each addition equals wrapping once at the end |
| JavaInt.Quot | src/edu/virginia/jinsup/GraphFrame.java:376-382 | Java's truncating division agrees with floor division on non-negative operands |
| JavaInt.Rem | src/edu/virginia/jinsup/GraphFrame.java:376-382 | `a == Quot(a,b)*b + r`; the remainder has the sign of `a` and is smaller than `abs(b)` |
| JavaInt.QuotTwo | src/edu/virginia/jinsup/Agent.java:200-203 | halving rounds toward zero: within one of `a` below for `a >= 0`, above for `a < 0` |
| Orders.Order.SetQuant | src/edu/virginia/jinsup/Order.java:99-101 | only the current quantity changes, to the new value |
| Orders.Order.SetPrice | src/edu/virginia/jinsup/Order.java:107-109 | only the price changes, to the new value |
| Orders.OrderIdCounter.constructor | src/edu/virginia/jinsup/Order.java:13 | the static counter starts at 0 with no ID issued |
| Orders.OrderIdCounter.NewOrder | src/edu/virginia/jinsup/Order.java:57-65 | a new order takes the next ID, above every ID issued before; its current quantity equals its original quantity; the counter advances by one |
| Orders.HighestFirst | src/edu/virginia/jinsup/Order.java:162-171 | highestFirstComparator as written, with both differences narrowed to `int`; the result is an `int` |
| Orders.LowestFirst | src/edu/virginia/jinsup/Order.java:186-195 | lowestFirstComparator as written; the result is an `int` |
| Orders.Compare | src/edu/virginia/jinsup/Order.java:140-146 | `Order.compare` as written; the result is an `int` |
| Orders.HighestFirstAgrees | src/edu/virginia/jinsup/Order.java:165-170 | when prices and IDs are close enough not to overflow: negative iff higher price (or same price, older ID), positive iff the reverse, zero iff the same price and ID |
| Orders.LowestFirstAgrees | src/edu/virginia/jinsup/Order.java:189-194 | the same for lowest price first, oldest ID first at one price |
| Orders.CompareAgrees | src/edu/virginia/jinsup/Order.java:140-146 | the same for highest price first, newest ID first at one price. This follows the code; the method's own documentation says the order created first is the lesser |
| Orders.HighBeforeIsStrictTotal | src/edu/virginia/jinsup/Order.java:162-171 | the intended highest-first order is irreflexive, asymmetric and transitive, and total on distinct IDs |
| Orders.LowBeforeIsStrictTotal | src/edu/virginia/jinsup/Order.java:186-195 | the intended lowest-first order is a strict total order on distinct IDs |
| Orders.NewestBeforeIsStrictTotal | src/edu/virginia/jinsup/Order.java:140-146 | the order of `compare` (highest price, then newest) is a strict total order on distinct IDs |
| Orders.HighestFirstIdCollision | src/edu/virginia/jinsup/Order.java:169 | two distinct orders at one price whose IDs differ by 2^32 compare as equal |
| Orders.HighestFirstChecked | src/edu/virginia/jinsup/Order.java:165-170 | the corrected comparator is negative, positive or zero exactly as the intended order says, for all prices and IDs |
| OrderBook.BeforeIsStrictTotal | src/edu/virginia/jinsup/MatchingEngine.java:137-138 | the key order of a `TreeSet` is a strict total order on distinct IDs |
| OrderBook.Trichotomy | src/edu/virginia/jinsup/MatchingEngine.java:137-138 | of two distinct registered orders, exactly one comes first |
| OrderBook.SortedNoDup | src/edu/virginia/jinsup/MatchingEngine.java:137-138 | a strictly sorted side holds no ID twice, as a `TreeSet` does |
| OrderBook.Insert | src/edu/virginia/jinsup/MatchingEngine.java:213-217 | `TreeSet.add`: the result holds exactly the old IDs plus the new one (as a multiset), one longer |
| OrderBook.InsertSorted | src/edu/virginia/jinsup/MatchingEngine.java:213-217 | inserting into a sorted side keeps it sorted |
| OrderBook.RemoveFirstCounts | src/edu/virginia/jinsup/MatchingEngine.java:176-179 | `remove` takes away one occurrence when present and changes nothing otherwise |
| OrderBook.RemoveFirstSorted | src/edu/virginia/jinsup/MatchingEngine.java:176-178 | removal keeps a side sorted |
| OrderBook.RemoveFirstGone | src/edu/virginia/jinsup/MatchingEngine.java:176-179 | from a duplicate-free list the removed ID is gone and every other ID stays |
| OrderBook.RemoveInserted | src/edu/virginia/jinsup/MatchingEngine.java:176-217 | removing an ID just inserted gives back the side as it was |
| OrderBook.AtPrice | src/edu/virginia/jinsup/MatchingEngine.java:493-511 | the orders of a sequence at one price, in order: exactly those members whose price matches |
| OrderBook.AtPriceAppend | src/edu/virginia/jinsup/MatchingEngine.java:493-511 | selecting by price distributes over concatenation |
| OrderBook.TotalQuantAppend | src/edu/virginia/jinsup/MatchingEngine.java:452-465 | the total quantity of a concatenation is the sum of the totals |
| OrderBook.Least | src/edu/virginia/jinsup/MatchingEngine.java:541-543 | `Collections.sort` then `get(0)` picks a member of the list |
| OrderBook.LeastIsLeast | src/edu/virginia/jinsup/MatchingEngine.java:541-543 | the pick comes before every other member in the comparator's order |
| OrderBook.Greatest | JinSup/src/MatchingEngine.java:490-503 | `Collections.sort` then the last element picks a member of the list |
| OrderBook.GreatestIsGreatest | JinSup/src/MatchingEngine.java:490-503 | the pick comes after every other member in the comparator's order |
| OrderBook.LeastOfSorted | src/edu/virginia/jinsup/MatchingEngine.java:577-583 | in a sorted side the least order is the first |
| OrderBook.Admit | src/edu/virginia/jinsup/MatchingEngine.java:420-426 | one step of the top-ten loop keeps at most `k` orders, each either the new order or one kept before |
| OrderBook.Top | src/edu/virginia/jinsup/MatchingEngine.java:417-447 | the loop's result holds at most `k` orders of the side |
| OrderBook.AdmitGrows | src/edu/virginia/jinsup/MatchingEngine.java:420-421 | while fewer than `k` are kept, adding the next order keeps the `k` least |
| OrderBook.AdmitReplaces | src/edu/virginia/jinsup/MatchingEngine.java:422-424 | an order before the last kept one replaces it, and the `k` least are kept |
| OrderBook.AdmitSkips | src/edu/virginia/jinsup/MatchingEngine.java:422-424 | an order not before the last kept one is skipped, and the `k` least are kept |
| OrderBook.TopIsLeastK | src/edu/virginia/jinsup/MatchingEngine.java:417-447 | topBuyOrders and topSellOrders yield exactly the `min(k, n)` comparator-least orders of the side, sorted |
| OrderBook.AtPriceNone | src/edu/virginia/jinsup/MatchingEngine.java:493-511 | no order at the price gives an empty selection |
| OrderBook.AtPriceBefore | src/edu/virginia/jinsup/MatchingEngine.java:452-465 | on a sorted side, the orders below a lower-priced position contribute nothing at the price |
| OrderBook.AtPriceFrom | src/edu/virginia/jinsup/MatchingEngine.java:470-483 | on a sorted side, the orders above a higher-priced position contribute nothing at the price |
| Matching.PlaceKeepsValid | src/edu/virginia/jinsup/MatchingEngine.java:212-223 | createOrder's bookkeeping keeps the book valid; the order is on its own side only and at the end of its creator's list, created when absent; nothing else changes |
| Matching.PlaceSides | src/edu/virginia/jinsup/MatchingEngine.java:213-217 | the sides gain exactly the new order, on its own side |
| Matching.PlaceLists | src/edu/virginia/jinsup/MatchingEngine.java:218-223 | the agents' lists stay consistent with the sides |
| Matching.CancelKeepsValid | src/edu/virginia/jinsup/MatchingEngine.java:176-186 | cancelOrder keeps the book valid; the order leaves both sides and its creator's list with quantity 0; no other order, side membership or list changes |
| Matching.CancelSides | src/edu/virginia/jinsup/MatchingEngine.java:177-178 | the sides lose exactly the cancelled order |
| Matching.CancelLists | src/edu/virginia/jinsup/MatchingEngine.java:179 | the creator's list loses exactly the cancelled order, and the other lists stay |
| Matching.RetireIsCancel | src/edu/virginia/jinsup/MatchingEngine.java:336-351 | the removals of trade(o1,o2) leave the same book as cancelOrder |
| Matching.SetQuantKeepsValid | src/edu/virginia/jinsup/Order.java:99-101 | changing a quantity keeps the book valid |
| Matching.PlaceThenCancel | src/edu/virginia/jinsup/MatchingEngine.java:176-223 | placing a fresh order and cancelling it gives back both sides |
| Matching.Market.AddLast | src/edu/virginia/jinsup/MatchingEngine.java:553-561 | the aggressor's side gains `v` as last aggressor volume, the other side and every other field unchanged |
| Matching.Market.AddCurr | src/edu/virginia/jinsup/MatchingEngine.java:744-751 | logAggressiveTrader and logExtraTrades: that side gains `v` as current aggressor volume, nothing else changes |
| Matching.PairTrade | src/edu/virginia/jinsup/MatchingEngine.java:330-381 | the pairwise trade changes only quantities in the registry and keeps every agent's list |
| Matching.PairTradeIs | src/edu/virginia/jinsup/MatchingEngine.java:330-381 | per case (equal, aggressor larger, passive larger): the book the trade leaves and the volume it returns |
| Matching.PairTradeFillsMin | src/edu/virginia/jinsup/MatchingEngine.java:330-381 | both orders lose min(q1, q2) shares, the smaller leaves the book (both when equal), the other orders and lists stay, the book stays valid, and the last trade price is the passive order's |
| Matching.PairTradeKeepsValid | src/edu/virginia/jinsup/MatchingEngine.java:330-381 | the pairwise trade keeps the book valid |
| Matching.WillTrade | src/edu/virginia/jinsup/MatchingEngine.java:493-511 | `None` (null) iff no opposite order has the same price; otherwise exactly the opposite orders at that price, non-empty |
| Matching.WillTradeCandidates | src/edu/virginia/jinsup/MatchingEngine.java:493-511 | willTrade's answer is an acceptable candidate list for trade(order, list) |
| Matching.MatchedIsOldest | src/edu/virginia/jinsup/MatchingEngine.java:541-543 | the order matched is on the opposite side at the price and has the smallest ID of all such orders |
| Matching.LimitTradeIs | src/edu/virginia/jinsup/MatchingEngine.java:525-572 | the trading case: pair with the oldest candidate, record the volume as last and current aggressor volume, tell both agents their signed fills |
| Matching.LimitTraded | src/edu/virginia/jinsup/MatchingEngine.java:525-572 | trade(order, list) answers true iff there are candidates and the starting period is over; the old engine's trade (JinSup/src/MatchingEngine.java lines 427-467) answers the same and uses this definition too |
| Matching.LimitTradeFills | src/edu/virginia/jinsup/MatchingEngine.java:538-568 | after a limit trade the book is valid, min(q1, q2) shares changed hands, and the aggressor and passive agents are told `+v`/`-v` by side |
| Matching.LimitTradeKeepsValid | src/edu/virginia/jinsup/MatchingEngine.java:525-572 | any outcome of trade(order, list) keeps the book valid and its fills net to zero |
| Matching.CreateTraded | src/edu/virginia/jinsup/MatchingEngine.java:212-233 | createOrder answers true iff the order is a limit order, the starting period is over, and an opposite order has the same price |
| Matching.CreateOrderRests | src/edu/virginia/jinsup/MatchingEngine.java:212-233 | a market order, or one that meets no opposite order at its price, just rests on its side and nobody is told anything |
| Matching.CreateOrderInStartingPeriod | src/edu/virginia/jinsup/MatchingEngine.java:533-536 | in the starting period a crossing limit order is cancelled at once: the sides are as before and nobody is told |
| Matching.CreateOrderTrades | src/edu/virginia/jinsup/MatchingEngine.java:212-233 | after the starting period a crossing limit order trades: two fills that net to zero |
| Matching.CancelEach | src/edu/virginia/jinsup/MatchingEngine.java:888-917 | cancelling a list of orders keeps the book valid and changes only quantities |
| Matching.CancelEachGone | src/edu/virginia/jinsup/MatchingEngine.java:888-917 | every listed order is gone |
| Matching.CancelEachKeeps | src/edu/virginia/jinsup/MatchingEngine.java:888-917 | every order not listed is kept unchanged |
| Matching.CancelEachLists | src/edu/virginia/jinsup/MatchingEngine.java:888-917 | every list keeps the orders not cancelled |
| Matching.OfSide | src/edu/virginia/jinsup/MatchingEngine.java:888-917 | exactly the members of the list on the given side, in order |
| Matching.TopOf | src/edu/virginia/jinsup/MatchingEngine.java:417-447 | the top-ten list holds orders of its side only |
| Matching.TopOfEmpty | src/edu/virginia/jinsup/MatchingEngine.java:256-288 | a top-ten list is empty iff its side is |
| Matching.TopsHeld | src/edu/virginia/jinsup/MatchingEngine.java:256-282 | every order in the opposite top ten is a resting order distinct from the aggressor |
| Matching.SweepKeepsValid | src/edu/virginia/jinsup/MatchingEngine.java:263-302 | the sweep of tradeMarketOrder keeps the book valid and the set of registered orders and lists |
| Matching.SweepBalances | src/edu/virginia/jinsup/MatchingEngine.java:263-302 | the aggressor's quantity falls by exactly the volume swept; the passive fills balance the aggressor's signed total |
| Matching.SweepPlacedSwept | src/edu/virginia/jinsup/MatchingEngine.java:255-315 | after the loop the aggressor is told the signed total, its side gains the total as last and current volume, and the last trade price is the last passive price |
| Matching.SweepPlacedKeepsValid | src/edu/virginia/jinsup/MatchingEngine.java:242-317 | the market-order sweep keeps the book valid |
| Matching.MarketOrderOnEmptySide | src/edu/virginia/jinsup/MatchingEngine.java:255-288 | a market order that finds the opposite side empty is cancelled and nobody is told |
| Matching.MarketOrderSweeps | src/edu/virginia/jinsup/MatchingEngine.java:242-317 | otherwise the fills net to zero, the last fill is the aggressor's, and the aggressor trades no more than its quantity |
| Matching.SweepPlacedTrades | src/edu/virginia/jinsup/MatchingEngine.java:255-315 | the same for an aggressor already on the book |
| Matching.SweepFinal | src/edu/virginia/jinsup/MatchingEngine.java:263-306 | the aggressor's fill balances the passive fills and its quantity falls by the total swept |
| Matching.RepriceInPlaceUnsorts | src/edu/virginia/jinsup/MatchingEngine.java:394-396 | re-pricing inside the `TreeSet`, as written, leaves a valid book invalid |
| Matching.RepriceKeepsValid | src/edu/virginia/jinsup/MatchingEngine.java:394-396 | the corrected re-pricing (take out, set, re-insert) keeps the book valid with the new price and quantity, on the same sides |
| Matching.RepriceSide | src/edu/virginia/jinsup/MatchingEngine.java:394-396 | re-inserting a re-priced order keeps the side sorted and holding the same orders |
| Matching.ModifyTraded | src/edu/virginia/jinsup/MatchingEngine.java:394-402 | with the corrected re-pricing, modifyOrder answers true iff the starting period is over and an opposite order has the new price |
| Matching.ModifyKeepsValid | src/edu/virginia/jinsup/MatchingEngine.java:394-402 | with the corrected re-pricing, modifyOrder keeps the book valid, its fills net to zero, and the order has the new price |
| Matching.OldestBelow | src/edu/virginia/jinsup/MatchingEngine.java:860-871 | getOldestOrder as written: the smallest ID below the clock, `None` iff there is none |
| Matching.OldestBelowMissesOrders | src/edu/virginia/jinsup/MatchingEngine.java:863 | with the clock at 3, an agent whose only order has ID 7 has no oldest order |
| Matching.Oldest | src/edu/virginia/jinsup/MatchingEngine.java:860-871 | the corrected scan: the smallest ID of the list, `None` iff the list is empty |
| Matching.OldestBelowAgrees | src/edu/virginia/jinsup/MatchingEngine.java:860-871 | when every ID is below the clock, the two scans agree |
| Matching.BestIsBest | src/edu/virginia/jinsup/MatchingEngine.java:577-594 | there is a best order iff the side is non-empty; the best bid is a buy of the highest price (the oldest at it); the best ask is a sell of the lowest price (the newest at it) |
| Matching.NetAppend | src/edu/virginia/jinsup/MatchingEngine.java:263-306 | the net of the fills grows by each new fill |
| Matching.CreditAppend | src/edu/virginia/jinsup/Agent.java:185-188 | a fill credits only its own agent, which is then marked as having traded |
| EngineState.SlideKeepsSum | src/edu/virginia/jinsup/MatchingEngine.java:631-640 | polling the oldest mid-point when more than `n` are kept, then adding the new one, keeps the moving sum equal to the `int` sum of the window, no longer than `n + 1` |
| EngineState.MidPointBetween | src/edu/virginia/jinsup/MatchingEngine.java:632-634 | when the book is not crossed and the sum fits an `int`, the mid-point lies between the best bid and ask |
| EngineState.StoredStartupTime | src/edu/virginia/jinsup/MatchingEngine.java:143-147 | as written, any non-zero startup time is not the one stored |
| EngineState.StartupTimeLost | src/edu/virginia/jinsup/MatchingEngine.java:143-147 | a one-minute startup period is stored as 0 |
| Engine.QuantityFromFirst | src/edu/virginia/jinsup/MatchingEngine.java:452-465 | the loop from the first buy order returns the `int` total quantity at the best bid price |
| Engine.WalkForward | src/edu/virginia/jinsup/MatchingEngine.java:456-463 | the loop stops at the first other price, having summed every order before it at the price |
| Engine.QuantityFromLast | src/edu/virginia/jinsup/MatchingEngine.java:470-483 | the loop from the last sell order returns the `int` total quantity at the best ask price |
| Engine.WalkBackward | src/edu/virginia/jinsup/MatchingEngine.java:474-481 | the descending loop stops at the first other price, having summed every order after it at the price |
| Engine.MatchingEngine.constructor | src/edu/virginia/jinsup/MatchingEngine.java:135-166 | the corrected constructor: empty book, the last trade price at the buy price, starting period on, the startup time as given |
| Engine.MatchingEngine.CancelOrder | src/edu/virginia/jinsup/MatchingEngine.java:176-186 | the engine's book becomes `Cancel` of the old one and the invariant holds |
| Engine.MatchingEngine.Withdraw | src/edu/virginia/jinsup/MatchingEngine.java:177-185 | the removals and `setQuant(0)` give `Cancel` of the old book |
| Engine.MatchingEngine.AddNewAgent | src/edu/virginia/jinsup/MatchingEngine.java:198-200 | the agent is registered under its ID; the invariant holds |
| Engine.MatchingEngine.Notify | src/edu/virginia/jinsup/MatchingEngine.java:563-566 | the agent's inventory grows by the fill and it is marked as having traded |
| Engine.MatchingEngine.RetireOrder | src/edu/virginia/jinsup/MatchingEngine.java:336-351 | the removals of trade(o1,o2) give `Retire` of the old book |
| Engine.MatchingEngine.PairTrade | src/edu/virginia/jinsup/MatchingEngine.java:330-381 | the fields become `Matching.PairTrade`'s market, and the volume returned is its volume |
| Engine.MatchingEngine.Enter | src/edu/virginia/jinsup/MatchingEngine.java:213-223 | the book becomes `Place` of the old one |
| Engine.MatchingEngine.WillTrade | src/edu/virginia/jinsup/MatchingEngine.java:493-511 | the loops return `Matching.WillTrade` of the book |
| Engine.MatchingEngine.Trade | src/edu/virginia/jinsup/MatchingEngine.java:525-572 | the answer is `LimitTraded`, the fields become `LimitTrade`'s market, each agent is credited exactly with its fills, and the invariant holds |
| Engine.MatchingEngine.Withhold | src/edu/virginia/jinsup/MatchingEngine.java:533-536 | in the starting period the order is cancelled as `LimitTrade` says |
| Engine.MatchingEngine.MatchValid | src/edu/virginia/jinsup/MatchingEngine.java:538-570 | the trading case leaves `Matched`'s market and credits its fills |
| Engine.MatchingEngine.Match | src/edu/virginia/jinsup/MatchingEngine.java:538-570 | the same, on the engine's fields |
| Engine.MatchingEngine.Settle | src/edu/virginia/jinsup/MatchingEngine.java:551-570 | the aggressor's side gains the volume as last and current aggressor volume; the aggressor and the passive agent are credited `+v`/`-v` by side |
| Engine.MatchingEngine.CreateOrder | src/edu/virginia/jinsup/MatchingEngine.java:212-233 | the answer is `CreateTraded`, the fields become `Matching.CreateOrder`'s market, the fills are credited, and the invariant holds |
| Engine.MatchingEngine.CreateMarket | src/edu/virginia/jinsup/MatchingEngine.java:212-233 | a market order is only placed |
| Engine.MatchingEngine.CreateLimit | src/edu/virginia/jinsup/MatchingEngine.java:228-231 | a limit order is placed and then traded as `Matching.CreateOrder` says |
| Engine.MatchingEngine.Accept | src/edu/virginia/jinsup/MatchingEngine.java:213-223 | the order is placed and registered as given; the invariant holds |
| Engine.MatchingEngine.ModifyOrder | src/edu/virginia/jinsup/MatchingEngine.java:394-402 | with the corrected re-pricing, the answer is `ModifyTraded`, the fields become `Modify`'s market, the fills are credited, and the invariant holds |
| Engine.MatchingEngine.RepriceValid | src/edu/virginia/jinsup/MatchingEngine.java:395-396 | the book becomes the corrected `Reprice` of the old one, keeping the invariant |
| Engine.MatchingEngine.Reposition | src/edu/virginia/jinsup/MatchingEngine.java:395-396 | the corrected re-pricing: the order is taken out of its side, given its new price and quantity, and re-inserted |
| Engine.MatchingEngine.TradeMarketOrder | src/edu/virginia/jinsup/MatchingEngine.java:242-317 | the fields become `MarketOrder`'s market, every agent is credited with exactly its fills, and the invariant holds |
| Engine.MatchingEngine.SweepValid | src/edu/virginia/jinsup/MatchingEngine.java:252-315 | for an order already placed: `SweepPlaced`'s market and fills |
| Engine.MatchingEngine.CancelUnmatched | src/edu/virginia/jinsup/MatchingEngine.java:256-288 | an empty opposite top ten cancels the order, as `SweepPlaced` says |
| Engine.MatchingEngine.SweepTops | src/edu/virginia/jinsup/MatchingEngine.java:263-315 | the sweep against a non-empty top ten leaves `SweepPlaced`'s market and credits its fills |
| Engine.MatchingEngine.SweepAgainst | src/edu/virginia/jinsup/MatchingEngine.java:263-315 | the same, without the invariant's agent part |
| Engine.MatchingEngine.SweepRecorded | src/edu/virginia/jinsup/MatchingEngine.java:263-315 | the loop and its epilogue together credit exactly `SweepPlaced`'s fills |
| Engine.MatchingEngine.RecordSweep | src/edu/virginia/jinsup/MatchingEngine.java:278-315 | the aggressor is told its signed total; its side gains the total as last and current volume; the last trade price is the last passive price |
| Engine.MatchingEngine.SweepLoop | src/edu/virginia/jinsup/MatchingEngine.java:263-276 | the while loop ends where the `Sweep` function does, with the same total, price and fills, each passive agent credited |
| Engine.MatchingEngine.SweepPass | src/edu/virginia/jinsup/MatchingEngine.java:264-275 | one pass: pair with the next top order, credit its agent, and stop iff the total reaches the quantity to rid |
| Engine.MatchingEngine.Strike | src/edu/virginia/jinsup/MatchingEngine.java:265-271 | the pairwise trade plus the passive agent's credit |
| Engine.MatchingEngine.Tell | src/edu/virginia/jinsup/Agent.java:185-188 | one `setLastOrderTraded` call credits exactly one fill and changes no engine field |
| Engine.MatchingEngine.TopBuyOrders | src/edu/virginia/jinsup/MatchingEngine.java:417-429 | exactly the ten (or fewer) highest-first buy orders |
| Engine.MatchingEngine.TopSellOrders | src/edu/virginia/jinsup/MatchingEngine.java:435-447 | exactly the ten (or fewer) lowest-first sell orders |
| Engine.MatchingEngine.TopOrders | src/edu/virginia/jinsup/MatchingEngine.java:420-427 | the loop computes `Top` of the side |
| Engine.MatchingEngine.AdmitTop | src/edu/virginia/jinsup/MatchingEngine.java:421-426 | one iteration computes `Admit` |
| Engine.MatchingEngine.GetBestBid | src/edu/virginia/jinsup/MatchingEngine.java:577-583 | null iff no buy order; otherwise a buy order with no buy order priced higher |
| Engine.MatchingEngine.GetBestAsk | src/edu/virginia/jinsup/MatchingEngine.java:588-594 | null iff no sell order; otherwise a sell order with no sell order priced lower |
| Engine.MatchingEngine.GetBestBidQuantity | src/edu/virginia/jinsup/MatchingEngine.java:452-465 | the `int` total quantity of the buy orders at the best bid price |
| Engine.MatchingEngine.GetBestAskQuantity | src/edu/virginia/jinsup/MatchingEngine.java:470-483 | the `int` total quantity of the sell orders at the best ask price |
| Engine.MatchingEngine.Reset | src/edu/virginia/jinsup/MatchingEngine.java:620-625 | the current aggressor volumes become the last ones and restart at 0 |
| Engine.MatchingEngine.StoreMovingAverage | src/edu/virginia/jinsup/MatchingEngine.java:631-640 | the window slides by the current mid-point (`buyPrice + 12` when a side is empty), keeping the moving sum its `int` sum |
| Engine.MatchingEngine.CurrentMidPoint | src/edu/virginia/jinsup/MatchingEngine.java:632-634 | the mid-point of the best bid and ask |
| Engine.MatchingEngine.RecordMidPoint | src/edu/virginia/jinsup/MatchingEngine.java:635-639 | the window slides and the moving sum stays its `int` sum |
| Engine.MatchingEngine.GetMovingAverage | src/edu/virginia/jinsup/MatchingEngine.java:646-648 | the `int` sum of the window divided (truncating) by its length |
| Engine.MatchingEngine.AgentHasOrders | src/edu/virginia/jinsup/MatchingEngine.java:880-882 | true iff the agent has a resting order |
| Engine.MatchingEngine.GetOldestOrder | src/edu/virginia/jinsup/MatchingEngine.java:860-871 | the corrected scan: the agent's resting order of smallest ID, null iff it has none |
| Engine.MatchingEngine.IncrementTime | src/edu/virginia/jinsup/MatchingEngine.java:929-931 | the clock advances by one |
| Engine.MatchingEngine.SetStartingPeriod | src/edu/virginia/jinsup/MatchingEngine.java:604-606 | the flag takes the given value |
| Engine.MatchingEngine.CancelAllSellOrders | src/edu/virginia/jinsup/MatchingEngine.java:888-901 | every sell order of the agent is cancelled, in list order; its list keeps exactly its buy orders; the invariant holds |
| Engine.MatchingEngine.CancelAllBuyOrders | src/edu/virginia/jinsup/MatchingEngine.java:907-917 | every buy order of the agent is cancelled; its list keeps exactly its sell orders |
| Engine.MatchingEngine.CancelAllOf | src/edu/virginia/jinsup/MatchingEngine.java:888-917 | the shared loop: the index advances past kept orders and stays after a removal |
| Engine.MatchingEngine.CancelAt | src/edu/virginia/jinsup/MatchingEngine.java:893-899 | one iteration keeps the loop invariant |
| Agents.AgentIdCounter.constructor | src/edu/virginia/jinsup/Agent.java:15 | the static counter starts at 0 with no ID issued |
| Agents.Agent.constructor | src/edu/virginia/jinsup/Agent.java:66-76 | the agent takes the next, never-issued ID; flat inventory; every schedule time -1; no action |
| Agents.Agent.SetLastOrderTraded | src/edu/virginia/jinsup/Agent.java:185-188 | the flag is set and the inventory grows by the volume |
| Agents.Agent.SetWillAct | src/edu/virginia/jinsup/Agent.java:112-114 | `getWillAct` then answers the value set |
| Agents.Agent.SetNextActTime | src/edu/virginia/jinsup/Agent.java:92-94 | the next act time takes the value set |
| Agents.Agent.CompareTo | src/edu/virginia/jinsup/Agent.java:340-343 | 1, -1 or 0 exactly as the next act time is later, earlier or the same |
| Agents.CompareToAntisymmetric | src/edu/virginia/jinsup/Agent.java:340-343 | swapping the agents negates the comparison; an agent equals itself |
| Agents.Agent.MidPoint | src/edu/virginia/jinsup/Agent.java:200-203 | the mid-point is a Java `int` |
| Agents.MidPointBetween | src/edu/virginia/jinsup/Agent.java:200-203 | without overflow the mid-point lies between the two prices |
| Agents.MidPointIsFloor | src/edu/virginia/jinsup/Agent.java:200-203 | for a non-negative sum it is the floor of the exact average |
| Agents.MidPointOfNegativeOddSum | src/edu/virginia/jinsup/Agent.java:200-203 | for a negative odd sum Java rounds toward zero, one above the floor |
| DelayLine.Zeros | src/edu/virginia/jinsup/IntelligentAgentHelper.java:16-17 | a fresh `int[]` of length `n` holds zeros |
| DelayLine.IntelligentAgentHelper.constructor | src/edu/virginia/jinsup/IntelligentAgentHelper.java:14-19 | for any delay length of at least 0: two fresh arrays of that length, oldest index 0, nothing added |
| DelayLine.IntelligentAgentHelper.GetOldVolumeDifferenceData | src/edu/virginia/jinsup/IntelligentAgentHelper.java:27-29 | the volume difference added exactly `delayLength` additions ago, 0 before that many |
| DelayLine.IntelligentAgentHelper.GetOldTradePriceData | src/edu/virginia/jinsup/IntelligentAgentHelper.java:37-39 | the trade price added exactly `delayLength` additions ago, 0 before that many |
| DelayLine.IntelligentAgentHelper.AddData | src/edu/virginia/jinsup/IntelligentAgentHelper.java:46-53 | both values are written at the oldest index, which moves on cyclically; the histories gain them |
| ListMatching.Cancel | JinSup/src/MatchingEngine.java:126-136 | cancelOrder changes only quantities and keeps the agents' lists |
| ListMatching.CreateKeepsSound | JinSup/src/MatchingEngine.java:162-170 | createOrder keeps the book sound and registers exactly the new order, at the end of `allOrders` |
| ListMatching.CancelKeepsSound | JinSup/src/MatchingEngine.java:126-136 | cancelOrder keeps the book sound; the order leaves `allOrders` and its list with quantity 0; other orders unchanged |
| ListMatching.CreateThenCancel | JinSup/src/MatchingEngine.java:126-170 | placing a fresh order and cancelling it gives back `allOrders` and the lists (the creator's list created when absent) |
| ListMatching.PairAsWritten | JinSup/src/MatchingEngine.java:274-310 | the old pairwise trade changes only quantities and keeps the agents' lists |
| ListMatching.PairBook | JinSup/src/MatchingEngine.java:279-301 | the book of the old pairwise trade changes only quantities |
| ListMatching.PairAsWrittenMisreports | JinSup/src/MatchingEngine.java:274-310 | each order loses min(q1, q2) and the smaller leaves, but unless equal the volume returned is the difference |
| ListMatching.PairReportsDifference | JinSup/src/MatchingEngine.java:285-291 | a buy of 5 against a sell of 3 reports 2 though 3 shares changed hands |
| ListMatching.PairKeepsSound | JinSup/src/MatchingEngine.java:274-310 | the old pairwise trade keeps the book sound |
| ListMatching.SamePriced | JinSup/src/MatchingEngine.java:391-414 | exactly the opposite-side orders of `allOrders` at the price, in order |
| ListMatching.WillTrade | JinSup/src/MatchingEngine.java:391-414 | null iff no opposite order has the price; otherwise exactly those orders, non-empty |
| ListMatching.WillTradeCandidates | JinSup/src/MatchingEngine.java:391-414 | willTrade's answer is an acceptable candidate list |
| ListMatching.MatchedIs | JinSup/src/MatchingEngine.java:427-467 | the trading case: pair with the oldest candidate, add the volume to the last aggressor volume, tell both agents the same volume |
| ListMatching.LimitTradeKeepsSound | JinSup/src/MatchingEngine.java:427-467 | trade(order, list) keeps the book sound; no fills without candidates or in the starting period; otherwise two fills of the returned volume |
| ListMatching.CreateTraded | JinSup/src/MatchingEngine.java:162-180 | createOrder answers true iff the order is a limit order, the starting period is over, and some opposite order of `allOrders` rests at exactly its price |
| ListMatching.CreateOrderRests | JinSup/src/MatchingEngine.java:162-180 | a market order is only placed and nobody is told |
| ListMatching.CreateOrderKeepsSound | JinSup/src/MatchingEngine.java:162-180 | createOrder keeps the book sound and the order registered |
| ListMatching.RepriceKeepsSound | JinSup/src/MatchingEngine.java:326-327 | re-pricing keeps the book sound and the lists unchanged |
| ListMatching.ModifyKeepsSound | JinSup/src/MatchingEngine.java:323-332 | modifyOrder keeps the book sound |
| ListMatching.ModifyTraded | JinSup/src/MatchingEngine.java:323-332 | modifyOrder answers true iff the starting period is over and some opposite order of `allOrders` rests at exactly the new price |
| ListMatching.AdmitBuy | JinSup/src/MatchingEngine.java:350-357 | one step keeps at most ten orders, each the new one or one kept before |
| ListMatching.TopBuys | JinSup/src/MatchingEngine.java:347-361 | at most ten orders, all from the list |
| ListMatching.BuyGrows | JinSup/src/MatchingEngine.java:351-353 | while fewer than ten are kept, adding the next buy keeps the highest ten |
| ListMatching.BuyReplaces | JinSup/src/MatchingEngine.java:354-356 | an order the newest-first comparator puts before the tenth replaces it, and the highest ten are kept |
| ListMatching.BuySkips | JinSup/src/MatchingEngine.java:354-356 | any other order is skipped, and the highest ten are kept |
| ListMatching.TopBuysAreHighest | JinSup/src/MatchingEngine.java:347-361 | the loop keeps min(10, n) buy orders, sorted by highestFirstComparator, all of them when there are fewer than ten, and none left out is priced above one kept; which orders it keeps at a tied boundary price is not stated (see Findings) |
| ListMatching.TopBuysOfSorted | JinSup/src/MatchingEngine.java:347-361 | up to ten buys met in highestFirstComparator order are all kept, in that order |
| ListMatching.TopBuysTieKeepsNeither | JinSup/src/MatchingEngine.java:347-361 | eleven buys (IDs 0-7 at 200, 8-10 at 100) leave IDs 0-8 and 10: neither the ten most recent first nor the ten oldest first |
| ListMatching.TopBuysNewestFirstIsNewestTen | JinSup/src/MatchingEngine.java:342-361 | with one comparator for admission and order, the loop keeps exactly the ten highest-priced buys, the most recent first at one price, as its documentation promises |
| ListMatching.OfSideNoDup | JinSup/src/MatchingEngine.java:347-381 | filtering by side keeps a list free of duplicates |
| ListMatching.TopOrdersAreBest | JinSup/src/MatchingEngine.java:347-381 | topBuyOrders keeps the highest ten buys; topSellOrders the lowest-first ten sells |
| ListMatching.BestOfIsBest | JinSup/src/MatchingEngine.java:472-503 | null iff the side is empty; the best bid a buy with no buy priced higher, the best ask a sell with no sell priced lower |
| ListMatching.SweepBalances | JinSup/src/MatchingEngine.java:212-252 | the sweep keeps the book sound, and the passive fills sum to the volume swept |
| ListMatching.TopOppositeHeld | JinSup/src/MatchingEngine.java:205-237 | the opposite top ten is empty iff no opposite order rests; every order in it is held |
| ListMatching.TopOppositeCount | JinSup/src/MatchingEngine.java:347-381 | the top ten holds `min(10, n)` orders |
| ListMatching.SideEmpty | JinSup/src/MatchingEngine.java:205-211 | a side filtered out of `allOrders` is empty iff no order of that side rests |
| ListMatching.SweepPlacedKeepsSound | JinSup/src/MatchingEngine.java:199-260 | the sweep of a placed market order keeps the book sound |
| ListMatching.SweepPlacedSwept | JinSup/src/MatchingEngine.java:226-260 | after the loop the aggressor is told the total; its side gains it as last and current volume; the last trade price is the last passive price |
| ListMatching.MarketOrderInStartingPeriod | JinSup/src/MatchingEngine.java:194-198 | in the starting period the order is placed and cancelled: lists unchanged, nobody told |
| ListMatching.MarketOrderOnEmptySide | JinSup/src/MatchingEngine.java:205-237 | an empty opposite side makes the order behave as in the starting period |
| ListMatching.MarketOrderKeepsSound | JinSup/src/MatchingEngine.java:191-262 | tradeMarketOrder keeps the book sound |
| ListMatching.MarketOrderReports | JinSup/src/MatchingEngine.java:191-262 | the aggressor's report is the sum of the passive reports |
| ListEngine.MatchingEngine.constructor | JinSup/src/MatchingEngine.java:90-116 | empty book, zero volumes and last trade price, starting period on, nobody told |
| ListEngine.MatchingEngine.CancelOrder | JinSup/src/MatchingEngine.java:126-136 | the book becomes `Cancel` of the old one, keeping the invariant |
| ListEngine.MatchingEngine.Withdraw | JinSup/src/MatchingEngine.java:127-135 | the removals and `setQuant(0)` give `Cancel` |
| ListEngine.MatchingEngine.Enter | JinSup/src/MatchingEngine.java:163-170 | the book becomes `Create` of the old one |
| ListEngine.MatchingEngine.Accept | JinSup/src/MatchingEngine.java:163-170 | the order is placed and held, keeping the invariant |
| ListEngine.MatchingEngine.PairTrade | JinSup/src/MatchingEngine.java:274-310 | the fields become `PairAsWritten`'s market and the volume is its volume |
| ListEngine.MatchingEngine.Exchange | JinSup/src/MatchingEngine.java:279-301 | the book and volume are `PairBook`'s |
| ListEngine.MatchingEngine.WillTrade | JinSup/src/MatchingEngine.java:391-414 | the loops return `ListMatching.WillTrade` |
| ListEngine.MatchingEngine.Trade | JinSup/src/MatchingEngine.java:427-467 | the answer is `LimitTraded`, the fields become `LimitTrade`'s market, and exactly its fills are told |
| ListEngine.MatchingEngine.MatchValid | JinSup/src/MatchingEngine.java:440-465 | the trading case, keeping the invariant |
| ListEngine.MatchingEngine.Match | JinSup/src/MatchingEngine.java:440-465 | the trading case leaves `Matched`'s market and tells its fills |
| ListEngine.MatchingEngine.Settle | JinSup/src/MatchingEngine.java:451-465 | the side gains the volume as last and current volume; both agents are told the same volume |
| ListEngine.MatchingEngine.CreateOrder | JinSup/src/MatchingEngine.java:162-180 | the answer is `CreateTraded`, the fields become `ListMatching.CreateOrder`'s market, and its fills are told |
| ListEngine.MatchingEngine.ModifyOrder | JinSup/src/MatchingEngine.java:323-332 | the answer is `ModifyTraded`, the fields become `Modify`'s market, and its fills are told |
| ListEngine.MatchingEngine.Collect | JinSup/src/MatchingEngine.java:473-477 | the loop gathers exactly the orders of the side, in order |
| ListEngine.MatchingEngine.TopBuyOrders | JinSup/src/MatchingEngine.java:347-361 | the highest ten buy orders |
| ListEngine.MatchingEngine.CollectTopBuys | JinSup/src/MatchingEngine.java:347-361 | the loop computes `TopBuyOrders` |
| ListEngine.MatchingEngine.AdmitBuyOrder | JinSup/src/MatchingEngine.java:350-357 | one iteration computes `AdmitBuy` |
| ListEngine.MatchingEngine.TopSellOrders | JinSup/src/MatchingEngine.java:367-381 | the lowest-first ten sell orders |
| ListEngine.MatchingEngine.CollectTopSells | JinSup/src/MatchingEngine.java:367-381 | the loop computes `TopSellOrders` |
| ListEngine.MatchingEngine.AdmitSellOrder | JinSup/src/MatchingEngine.java:370-377 | one iteration computes `Admit` |
| ListEngine.MatchingEngine.GetBestBid | JinSup/src/MatchingEngine.java:472-485 | null iff no buy rests; otherwise a buy with no buy priced higher |
| ListEngine.MatchingEngine.GetBestAsk | JinSup/src/MatchingEngine.java:490-503 | null iff no sell rests; otherwise a sell with no sell priced lower |
| ListEngine.MatchingEngine.SetStartingPeriod | JinSup/src/MatchingEngine.java:520-522 | the flag takes the given value |
| ListEngine.MatchingEngine.Reset | JinSup/src/MatchingEngine.java:536-541 | the current volumes become the last ones and restart at 0 |
| ListEngine.MatchingEngine.StoreMovingAverage | JinSup/src/MatchingEngine.java:547-556 | the window slides by the mid-point with the caller's length `n`, keeping the moving sum its `int` sum |
| ListEngine.MatchingEngine.CurrentMidPoint | JinSup/src/MatchingEngine.java:548-550 | the mid-point of the best bid and ask, `buyPrice + 12` when a side is empty |
| ListEngine.MatchingEngine.RecordMidPoint | JinSup/src/MatchingEngine.java:551-555 | the window slides and the moving sum stays its `int` sum |
| ListEngine.MatchingEngine.GetMovingAverage | JinSup/src/MatchingEngine.java:562-564 | the `int` sum of the window divided (truncating) by its length |
| ListEngine.MatchingEngine.TradeMarketOrder | JinSup/src/MatchingEngine.java:191-262 | the fields become `MarketOrder`'s market and exactly its fills are told, keeping the invariant |
| ListEngine.MatchingEngine.SweepValid | JinSup/src/MatchingEngine.java:199-260 | for a placed order: `SweepPlaced`'s market and fills |
| ListEngine.MatchingEngine.OppositeTops | JinSup/src/MatchingEngine.java:205-231 | the opposite top ten, every order in it held |
| ListEngine.MatchingEngine.SweepAgainst | JinSup/src/MatchingEngine.java:212-260 | the sweep against a non-empty top ten leaves `SweepPlaced`'s market and tells its fills |
| ListEngine.MatchingEngine.SweepLoop | JinSup/src/MatchingEngine.java:212-226 | the while loop ends where `Sweep` does, with the same total, price and fills |
| ListEngine.MatchingEngine.SweepPass | JinSup/src/MatchingEngine.java:213-225 | one pass: pair with the next top order, tell its agent, stop iff the total reaches the quantity |
| ListEngine.MatchingEngine.RecordSweep | JinSup/src/MatchingEngine.java:227-260 | the aggressor is told the total; its side gains it; the last trade price is the last passive price |
| Graph.Lowest | src/edu/virginia/jinsup/GraphFrame.java:107-108 | at most `Integer.MAX_VALUE`, not above any trade, and either a trade or the start value |
| Graph.Highest | src/edu/virginia/jinsup/GraphFrame.java:107-109 | at least 0, not below any trade, and either a trade or the start value |
| Graph.LowestAppend | src/edu/virginia/jinsup/GraphFrame.java:335-340 | a new trade lowers the lowest price only when below it |
| Graph.HighestAppend | src/edu/virginia/jinsup/GraphFrame.java:338-343 | a new trade raises the highest price only when above it |
| Graph.ClockOf | src/edu/virginia/jinsup/GraphFrame.java:379-382 | hours, minutes and milliseconds recombine to the time; for a non-negative time minutes are below 60 and milliseconds below a minute |
| Graph.ClockRoundTrip | src/edu/virginia/jinsup/GraphFrame.java:379-382 | any clock within range is the split of exactly one time |
| Graph.GraphFrame.constructor | src/edu/virginia/jinsup/GraphFrame.java:104-109 | a resize pending, the lowest price at `Integer.MAX_VALUE`, the highest at 0, no depth |
| Graph.GraphFrame.AddOrder | src/edu/virginia/jinsup/GraphFrame.java:276-289 | the chosen side's volume gains `volume` in `int` arithmetic, the other side and every other price unchanged; the entry is removed iff both sides are then 0 |
| Graph.GraphFrame.AddTrade | src/edu/virginia/jinsup/GraphFrame.java:334-354 | the price range takes in the trade and stays that of all trades; a resize is pending iff no redraw happened and the range moved or was pending |
| Graph.GraphFrame.UpdateTitleBar | src/edu/virginia/jinsup/GraphFrame.java:376-382 | at a redraw the title shows the split of the time and the state; otherwise nothing changes |
| LogParse.Trim | src/parsejinsuplog/ParseLogFile.java:209 | `String.trim`: no longer than the input, no control character or space at either end, empty only when the input has no visible character |
| LogParse.TrimIsInfix | src/parsejinsuplog/ParseLogFile.java:223 | `String.trim` returns the slice of its input between a blank prefix and a blank suffix (characters up to the space), and a string with no visible character trims to the empty string |
| LogParse.Decode | src/parsejinsuplog/ParseLogFile.java:130-231 | the row's fields: buy iff the column is "1", market iff the type is not "Limit", bid and ask -1 when unparsable, the blank-column defaults, and a row exactly when every strict column present (time, agent ID, message, order ID, original quantity, price, leaves quantity) and every non-blank trade price, quantity filled (trimmed) and trade match ID (trimmed) parses; a kept row holds the parse of each such column, column 4's token as the agent type, a parsed bid or ask, and the reset value of each column absent |
| LogParse.DecodeIgnoresExtraColumns | src/parsejinsuplog/ParseLogFile.java:146-230 | columns past the sixteenth do not change the row |
| LogParse.DecodeRow | src/parsejinsuplog/ParseLogFile.java:146-230 | the column loop computes `Decode` |
| LogParse.FirstTypeIsFirst | src/parsejinsuplog/ParseLogFile.java:235-241 | an agent's type is that of its first row |
| LogParse.LastQuoteIsLast | src/parsejinsuplog/ParseLogFile.java:257-259 | a time's best bid and ask are those of its last row |
| LogParse.AgentsAppend | src/parsejinsuplog/ParseLogFile.java:235-255 | one row files its transaction at the end of its order's history, creating the agent and the order when new, and changes no other agent |
| LogParse.OrderBookAppend | src/parsejinsuplog/ParseLogFile.java:257-259 | one row puts its best bid and ask under its time |
| LogParse.ParseLogFile.constructor | src/parsejinsuplog/ParseLogFile.java:57-66 | a missing file leaves both maps empty; otherwise the maps are those of the rows read |
| LogParse.ParseLogFile.ReadLog | src/parsejinsuplog/ParseLogFile.java:119-271 | after the header, the rows read are the longest prefix that decodes, and the maps are theirs |
| LogParse.ParseLogFile.AddRow | src/parsejinsuplog/ParseLogFile.java:235-259 | the row is added and the maps stay those of the rows read |

## Left out

- `getRandomOrder` (new engine, MatchingEngine.java 844-851): it draws from `java.util.Random`.
- The CSV log buffer, its writer and the log file (`logOrder`, `logTrade`, `writeToLog`). These change no modelled field. `logAggressiveTrader` and `logExtraTrades` are modelled only for their aggressor volumes (`AddCurr`).
- The calls into the depth chart from the engines. `GraphFrame.addOrder` is modelled on its own.
- The chart rendering, datasets and dialogs of `GraphFrame`: `priceCollection`, the axis ranges, the order-chart refresh and the seconds shown as a `double`. The wall clock is the parameter `now`.
- Agents.Agent.constructor: does not register the new agent with an engine. In the Java code the constructor's last step calls `matchEng.addNewAgent`; here that registration is the separate call `Engine.MatchingEngine.AddNewAgent`, which the caller makes right after construction. Module `Agents` cannot name the engine, because the engine module imports it.
- The agents of the old list-based engine and its `addNewAgent`. Their `setLastOrderTraded` calls are recorded in the ghost field `told`.
- Getters that only return a field.
- The CSV tokenizer (opencsv) and Java's number parsing. Lines come already split, and the parsers are the parameter `Parsers`.
- The `AgentLog`, `OrderLog` and `TransactionLog` objects of the log parser are values, not aliased objects.
- The `float` prices of the log parser are the parsers' `real` results, without rounding to `float`.
- The old engine's own `Order.java` (double prices, no `highestFirstComparator`) is not part of this model; both engines use module `Orders`.
- Matching.Modify: models the corrected re-pricing (take the order out of its side and re-insert it), not the stale `TreeSet` order `modifyOrder` leaves; see Findings.
- Matching.ModifyTraded: states its property of the corrected re-pricing, not of `modifyOrder` as written, whose book goes stale (Matching.RepriceInPlaceUnsorts).
- Matching.ModifyKeepsValid: states its property of the corrected re-pricing, not of `modifyOrder` as written, whose book goes stale (Matching.RepriceInPlaceUnsorts).
- Engine.MatchingEngine.ModifyOrder: states its property of the corrected re-pricing, not of `modifyOrder` as written, whose book goes stale (Matching.RepriceInPlaceUnsorts).
- Engine.MatchingEngine.Reposition: states its property of the corrected re-pricing, not of `modifyOrder` as written, whose book goes stale (Matching.RepriceInPlaceUnsorts).
- Engine.MatchingEngine.GetOldestOrder: models the corrected scan with no clock bound; see Findings.
- Engine.MatchingEngine.constructor: stores the startup time as given; see Findings.
- Orders.HighestFirst: the engine orders its sides by the intended key order. That order agrees with `HighestFirst`, `LowestFirst` and `Compare` only while both the price difference and the ID difference fit an `int` (`Comparable`). The price subtraction is an `int` subtraction at Order.java lines 142, 167 and 191, and the ID difference is narrowed at lines 145, 169 and 193; see Findings.
- DelayLine.IntelligentAgentHelper.constructor: a negative delay length is excluded by the precondition; Java throws `NegativeArraySizeException` there. A delay length of 0 is accepted, as in Java.
- DelayLine.IntelligentAgentHelper.GetOldVolumeDifferenceData: requires a positive delay length; with two empty arrays Java throws `ArrayIndexOutOfBoundsException`.
- DelayLine.IntelligentAgentHelper.GetOldTradePriceData: requires a positive delay length, for the same reason.
- DelayLine.IntelligentAgentHelper.AddData: requires a positive delay length, for the same reason.
- ListEngine.MatchingEngine.StoreMovingAverage: requires `n >= 0` or a kept mid-point. With a negative `n` and an empty queue, Java polls `null` and the unboxing throws `NullPointerException`.
- Agents.Agent.MidPoint: takes the best bid and best ask prices as parameters. The `NullPointerException` that `getMidPoint` raises when either side of the book is empty is not modelled.
- Preconditions stand where the Java code would throw: an empty side in `getBestBidQuantity`/`getBestAskQuantity`, a missing agent list in `getOldestOrder`, and `cancelAll*Orders`, an empty window in `getMovingAverage`, and an unregistered agent in a trade.
- Volumes and inventories are unbounded integers except where the code's `int` wrap-around is written out: the best-bid/ask quantity, the mid-point, the moving sum and the chart depth.

## Findings

| source | as written | input that shows it | evidently intended | confidence | as-written member | corrected member |
|---|---|---|---|---|---|---|
| src/edu/virginia/jinsup/MatchingEngine.java:394-396 | `modifyOrder` sets the price of an order while it sits in its `TreeSet`, so the set's order goes stale | buys at 100 (ID 0) and 90 (ID 1); ID 1 re-priced to 110 stays second | take the order out, change it, re-insert it | not executed | Matching.RepriceInPlaceUnsorts | Matching.RepriceKeepsValid |
| src/edu/virginia/jinsup/MatchingEngine.java:860-871 | `getOldestOrder` starts its scan at the clock `time`, so IDs not below the clock are never found | clock 3, the agent's only order has ID 7: null | the agent's order of smallest ID | not executed | Matching.OldestBelowMissesOrders | Matching.Oldest |
| src/edu/virginia/jinsup/MatchingEngine.java:143-147 | the constructor assigns 0 to its parameter `startupTime`, then copies the parameter into the field | startup time 60000 is stored as 0 | store the startup time given | not executed | EngineState.StartupTimeLost | Engine.MatchingEngine.constructor |
| JinSup/src/MatchingEngine.java:285-299 | the old pairwise trade returns the difference of the two quantities as the volume traded | a buy of 5 against a resting sell of 3: reports 2, though 3 shares changed hands | return min(q1, q2), as the current engine does | not executed | ListMatching.PairReportsDifference | Matching.PairTradeFillsMin |
| JinSup/src/MatchingEngine.java:354 | `topBuyOrders` admits an order with the instance `compare` (newest first at one price) but sorts and evicts with `highestFirstComparator` (oldest first) | buys with IDs 0-7 at 200 and 8-10 at 100, met in ID order: order 10 evicts order 9 and order 8 stays | one comparator throughout, giving the ten highest-priced buys, most recent first at one price, as the documentation at lines 342-346 says | not executed | ListMatching.TopBuysTieKeepsNeither | ListMatching.TopBuysNewestFirstIsNewestTen |
| src/edu/virginia/jinsup/Order.java:169 | highestFirstComparator narrows the `long` ID difference to `int` | two orders at 127.00 with IDs 0 and 2^32 compare as equal | compare IDs without narrowing | not executed | Orders.HighestFirstIdCollision | Orders.HighestFirstChecked |
