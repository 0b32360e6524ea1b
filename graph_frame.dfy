/**
 * The bookkeeping of the chart window (GraphFrame): the depth of book kept
 * per price for the order-book chart, the range of trade prices that
 * decides when the price axis is resized, and the hours and minutes of the
 * simulation clock shown in the title bar. The charts themselves, their
 * datasets and the dialogs are not modelled; the wall clock that throttles
 * refreshes is a parameter `now`.
 */
module Graph {
  import opened JavaInt
  import opened Optional

  /** REFRESH_INTERVAL: milliseconds between two redraws of a chart or of the title. */
  const RefreshInterval: int := 200

  const MillisPerHour: int := 3600000
  const MillisPerMinute: int := 60000

  /** The two `Integer` entries kept for one price: index 0 the buy volume, index 1 the sell volume. */
  datatype Level = Level(buy: int, sell: int)

  /** The volume on one side at `price`; a price without an entry has none. */
  function VolumeAt(depth: map<int, Level>, price: int, isBuy: bool): int {
    if price !in depth then 0
    else if isBuy then depth[price].buy
    else depth[price].sell
  }

  /** No price keeps an entry whose two sides are both zero. */
  predicate NoEmptyLevel(depth: map<int, Level>) {
    forall p :: p in depth ==> depth[p] != Level(0, 0)
  }

  /** Every volume kept is a Java `int`. */
  predicate IntLevels(depth: map<int, Level>) {
    forall p :: p in depth ==> InRange(depth[p].buy) && InRange(depth[p].sell)
  }

  /** The lowest trade price so far, starting from `Integer.MAX_VALUE`. */
  function Lowest(trades: seq<int>): (r: int)
    ensures r <= MaxInt
    ensures forall k :: 0 <= k < |trades| ==> r <= trades[k]
    ensures r == MaxInt || r in trades
    decreases |trades|
  {
    if |trades| == 0 then MaxInt
    else
      var rest := Lowest(trades[..|trades| - 1]);
      var last := trades[|trades| - 1];
      if last < rest then last else rest
  }

  /** The highest trade price so far, starting from 0. */
  function Highest(trades: seq<int>): (r: int)
    ensures r >= 0
    ensures forall k :: 0 <= k < |trades| ==> trades[k] <= r
    ensures r == 0 || r in trades
    decreases |trades|
  {
    if |trades| == 0 then 0
    else
      var rest := Highest(trades[..|trades| - 1]);
      var last := trades[|trades| - 1];
      if last > rest then last else rest
  }

  /** One more trade lowers the lowest price only when it is below it. */
  lemma LowestAppend(trades: seq<int>, price: int)
    ensures Lowest(trades + [price]) == if price < Lowest(trades) then price else Lowest(trades)
  {
    assert (trades + [price])[..|trades|] == trades;
  }

  /** One more trade raises the highest price only when it is above it. */
  lemma HighestAppend(trades: seq<int>, price: int)
    ensures Highest(trades + [price]) == if price > Highest(trades) then price else Highest(trades)
  {
    assert (trades + [price])[..|trades|] == trades;
  }

  /**
   * The simulation time of the title bar: whole hours, then whole minutes of
   * what is left, then the milliseconds left (shown as seconds), with
   * Java's `long` division and remainder.
   */
  datatype Clock = Clock(hours: int, minutes: int, millis: int)

  /** updateTitleBar's split of `newTime` milliseconds. */
  function ClockOf(newTime: int): (c: Clock)
    ensures c.hours * MillisPerHour + c.minutes * MillisPerMinute + c.millis == newTime
    ensures newTime >= 0 ==> c.hours >= 0 && 0 <= c.minutes < 60 && 0 <= c.millis < MillisPerMinute
    ensures newTime < 0 ==> c.hours <= 0 && -60 < c.minutes <= 0 && -MillisPerMinute < c.millis <= 0
  {
    var hours := Quot(newTime, MillisPerHour);
    var rest := Rem(newTime, MillisPerHour);
    var minutes := Quot(rest, MillisPerMinute);
    var millis := Rem(rest, MillisPerMinute);
    Clock(hours, minutes, millis)
  }

  /** A clock within an hour's minutes and a minute's milliseconds names exactly one non-negative time. */
  lemma ClockRoundTrip(h: int, m: int, ms: int)
    requires h >= 0 && 0 <= m < 60 && 0 <= ms < MillisPerMinute
    ensures ClockOf(h * MillisPerHour + m * MillisPerMinute + ms) == Clock(h, m, ms)
  {
    var t := h * MillisPerHour + m * MillisPerMinute + ms;
    var c := ClockOf(t);
    assert 0 <= m * MillisPerMinute + ms < MillisPerHour;
    assert 0 <= c.minutes * MillisPerMinute + c.millis < MillisPerHour;
    assert c.hours == h;
    assert c.minutes == m;
  }

  /** What the title bar shows: the clock and the simulation state. */
  datatype Title = Title(clock: Clock, state: string)

  class GraphFrame {
    /** orderMap: price to the buy and sell volume at that price. */
    var depth: map<int, Level>
    var minTradePrice: int
    var maxTradePrice: int
    var needResize: bool
    var nextTradeRefreshTime: int
    var nextTitleRefreshTime: int
    /** The title last set, none before the first. */
    var title: Option<Title>
    /** The trade prices added so far, in order. */
    ghost var trades: seq<int>

    /** The trade range is that of the trades so far, and every volume kept is an `int`. */
    ghost predicate Valid()
      reads this
    {
      && minTradePrice == Lowest(trades)
      && maxTradePrice == Highest(trades)
      && IntLevels(depth)
    }

    /** A new window: no depth, the price range not yet set, and a resize pending. */
    constructor ()
      ensures Valid() && fresh(this)
      ensures depth == map[] && trades == [] && title == None
      ensures minTradePrice == MaxInt && maxTradePrice == 0 && needResize
      ensures nextTradeRefreshTime == 0 && nextTitleRefreshTime == 0
    {
      needResize := true;
      minTradePrice := MaxInt;
      maxTradePrice := 0;
      depth := map[];
      nextTradeRefreshTime := 0;
      nextTitleRefreshTime := 0;
      title := None;
      trades := [];
    }

    /**
     * addOrder: `volume` (negative when orders leave) is added to the chosen
     * side at `price` with `int` arithmetic; an entry left with both sides
     * zero is removed, and a price without an entry gets one holding
     * `volume` on the chosen side and 0 on the other. No other price changes.
     */
    method AddOrder(isBuy: bool, volume: int, price: int)
      requires Valid() && InRange(volume)
      modifies this`depth
      ensures Valid()
      ensures VolumeAt(depth, price, isBuy) == Wrap(VolumeAt(old(depth), price, isBuy) + volume)
      ensures VolumeAt(depth, price, !isBuy) == VolumeAt(old(depth), price, !isBuy)
      ensures price !in depth <==> price in old(depth) && VolumeAt(depth, price, true) == 0 && VolumeAt(depth, price, false) == 0
      ensures price !in old(depth) && volume == 0 ==> depth[price] == Level(0, 0)
      ensures depth - {price} == old(depth) - {price}
      ensures NoEmptyLevel(old(depth)) && volume != 0 ==> NoEmptyLevel(depth)
    {
      if price in depth {
        var level := depth[price];
        if isBuy {
          level := level.(buy := Wrap(level.buy + volume));
        } else {
          level := level.(sell := Wrap(level.sell + volume));
        }
        if level.buy == 0 && level.sell == 0 {
          depth := depth - {price};
        } else {
          depth := depth[price := level];
        }
      } else {
        WrapInRange(volume);
        var level := if isBuy then Level(volume, 0) else Level(0, volume);
        depth := depth[price := level];
      }
    }

    /**
     * addTrade: the lowest and highest trade prices take in `price`, and a
     * resize is pending once either moved; at a redraw (the wall clock `now`
     * past the next refresh time) the axis is resized and nothing is pending.
     */
    method AddTrade(price: int, now: int)
      requires Valid()
      modifies this`minTradePrice, this`maxTradePrice, this`needResize, this`nextTradeRefreshTime, this`trades
      ensures Valid() && trades == old(trades) + [price]
      ensures minTradePrice <= price <= maxTradePrice
      ensures minTradePrice <= old(minTradePrice) && maxTradePrice >= old(maxTradePrice)
      ensures needResize == (now <= old(nextTradeRefreshTime)
                             && (old(needResize) || minTradePrice != old(minTradePrice) || maxTradePrice != old(maxTradePrice)))
      ensures nextTradeRefreshTime == if now > old(nextTradeRefreshTime) then now + RefreshInterval else old(nextTradeRefreshTime)
    {
      LowestAppend(trades, price);
      HighestAppend(trades, price);
      trades := trades + [price];
      if price < minTradePrice {
        minTradePrice := price;
        needResize := true;
        if price > maxTradePrice {
          maxTradePrice := price;
        }
      } else if price > maxTradePrice {
        maxTradePrice := price;
        needResize := true;
      }
      if now > nextTradeRefreshTime {
        nextTradeRefreshTime := now + RefreshInterval;
        if needResize {
          // the price axis is set to the new range
          needResize := false;
        }
      }
    }

    /**
     * updateTitleBar: at a redraw (the wall clock `now` past the next
     * refresh time) the title shows `newTime` split into hours, minutes and
     * milliseconds, with `state`; otherwise nothing changes.
     */
    method UpdateTitleBar(newTime: int, state: string, now: int)
      modifies this`title, this`nextTitleRefreshTime
      ensures now > old(nextTitleRefreshTime) ==>
                title == Some(Title(ClockOf(newTime), state)) && nextTitleRefreshTime == now + RefreshInterval
      ensures now <= old(nextTitleRefreshTime) ==>
                title == old(title) && nextTitleRefreshTime == old(nextTitleRefreshTime)
    {
      if now > nextTitleRefreshTime {
        nextTitleRefreshTime := now + RefreshInterval;
        var t := newTime;
        var hours := Quot(t, MillisPerHour);
        t := Rem(t, MillisPerHour);
        var minutes := Quot(t, MillisPerMinute);
        t := Rem(t, MillisPerMinute);
        title := Some(Title(Clock(hours, minutes, t), state));
      }
    }
  }
}
