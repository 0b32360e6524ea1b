/**
 * The bookkeeping every trading agent shares (src/edu/virginia/jinsup/Agent.java):
 * the static ID counter, the signed inventory that fills accumulate into,
 * the scheduling fields the controller sorts agents by, and the mid-point
 * an agent derives from the best bid and ask.
 */
module Agents {
  import opened JavaInt

  /** Agent.Action */
  datatype Action = NullAction | OrderAction | CancelAction

  /** The static `nextAgentID` counter. */
  class AgentIdCounter {
    var nextAgentId: int
    ghost var issued: set<int>

    ghost predicate Valid()
      reads this
    {
      forall i :: i in issued ==> i < nextAgentId
    }

    constructor ()
      ensures Valid() && nextAgentId == 0 && issued == {}
    {
      nextAgentId := 0;
      issued := {};
    }
  }

  class Agent {
    const id: int
    var nextActTime: int
    var willAct: bool
    /** Shares bought minus shares sold. */
    var inventory: int
    var lastOrderTraded: bool
    var nextOrderTime: int
    var nextCancelTime: int
    var nextAction: Action

    /**
     * Takes the next agent ID; starts flat, with every time at -1 so that the
     * controller does not pick the agent before it has scheduled itself.
     */
    constructor (counter: AgentIdCounter)
      requires counter.Valid()
      modifies counter
      ensures counter.Valid()
      ensures id == old(counter.nextAgentId) && counter.nextAgentId == id + 1
      ensures id !in old(counter.issued) && counter.issued == old(counter.issued) + {id}
      ensures inventory == 0 && !lastOrderTraded && !willAct
      ensures nextActTime == -1 && nextOrderTime == -1 && nextCancelTime == -1
      ensures nextAction == NullAction
    {
      id := counter.nextAgentId;
      inventory := 0;
      nextActTime := -1;
      nextOrderTime := -1;
      nextCancelTime := -1;
      nextAction := NullAction;
      willAct := false;
      lastOrderTraded := false;
      new;
      counter.issued := counter.issued + {counter.nextAgentId};
      counter.nextAgentId := counter.nextAgentId + 1;
    }

    /** Everything but the fill state is as it was. */
    twostate predicate ScheduleUnchanged()
      reads this
    {
      && nextActTime == old(nextActTime)
      && willAct == old(willAct)
      && nextOrderTime == old(nextOrderTime)
      && nextCancelTime == old(nextCancelTime)
      && nextAction == old(nextAction)
    }

    /** The matching engine reports a fill of `volume` shares (negative for a sale). */
    method SetLastOrderTraded(traded: bool, volume: int)
      modifies this`inventory, this`lastOrderTraded
      ensures lastOrderTraded == traded
      ensures inventory == old(inventory) + volume
    {
      lastOrderTraded := traded;
      inventory := inventory + volume;
    }

    method SetWillAct(act: bool)
      modifies this`willAct
      ensures GetWillAct() == act
    {
      willAct := act;
    }

    function GetWillAct(): bool
      reads this
    {
      willAct
    }

    method SetNextActTime(nextTime: int)
      modifies this`nextActTime
      ensures nextActTime == nextTime
    {
      nextActTime := nextTime;
    }

    /** Agents are ordered by the time they next act. */
    function CompareTo(a: Agent): (r: int)
      reads this, a
      ensures r == 1 <==> nextActTime > a.nextActTime
      ensures r == -1 <==> nextActTime < a.nextActTime
      ensures r == 0 <==> nextActTime == a.nextActTime
    {
      if nextActTime > a.nextActTime then 1
      else if nextActTime < a.nextActTime then -1
      else 0
    }

    /** getMidPoint: `(bestBid + bestAsk) / 2` in `int` arithmetic. */
    static function MidPoint(bestBidPrice: int, bestAskPrice: int): (m: int)
      ensures InRange(m)
    {
      Quot(Wrap(bestBidPrice + bestAskPrice), 2)
    }
  }

  lemma CompareToAntisymmetric(a: Agent, b: Agent)
    ensures a.CompareTo(b) == -b.CompareTo(a)
    ensures a.CompareTo(a) == 0
  {
  }

  /** When the sum does not overflow, the mid-point lies between the two prices. */
  lemma MidPointBetween(bid: int, ask: int)
    requires InRange(bid + ask)
    ensures bid <= ask ==> bid <= Agent.MidPoint(bid, ask) <= ask
    ensures ask <= bid ==> ask <= Agent.MidPoint(bid, ask) <= bid
  {
    WrapInRange(bid + ask);
    QuotTwo(bid + ask);
  }

  /** For a non-negative sum that does not overflow, the mid-point is the floor of the exact average. */
  lemma MidPointIsFloor(bid: int, ask: int)
    requires 0 <= bid + ask <= MaxInt
    ensures Agent.MidPoint(bid, ask) == (bid + ask) / 2
  {
    WrapInRange(bid + ask);
  }

  /** For a negative sum, Java rounds toward zero, which is one above the floor for odd sums. */
  lemma MidPointOfNegativeOddSum(bid: int, ask: int)
    requires MinInt <= bid + ask < 0 && (bid + ask) % 2 == 1
    ensures Agent.MidPoint(bid, ask) == (bid + ask) / 2 + 1
  {
    WrapInRange(bid + ask);
  }
}
