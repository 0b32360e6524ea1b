/**
 * The delay line the intelligent agents read from
 * (src/edu/virginia/jinsup/IntelligentAgentHelper.java): two parallel `int`
 * arrays of length `delayLength` used as a circular buffer, so that each
 * reading returns what was added exactly `delayLength` additions earlier.
 */
module DelayLine {

  /** Zeros: the content of a freshly allocated Java `int[]`. */
  function Zeros(n: nat): (s: seq<int>)
    ensures |s| == n && forall i :: 0 <= i < n ==> s[i] == 0
  {
    if n == 0 then [] else Zeros(n - 1) + [0]
  }

  /** The `j`-th slot after `start` in a ring of `len` slots, for `0 <= j < len`. */
  function Ring(start: int, j: int, len: int): int {
    if start + j < len then start + j else start + j - len
  }

  class IntelligentAgentHelper {
    const delayLength: int
    const volumeDifferenceData: array<int>
    const tradePriceData: array<int>
    var oldestIndex: int

    /** Every volume difference and trade price added so far, oldest first. */
    ghost var volumes: seq<int>
    ghost var prices: seq<int>

    /** What a reader sees: `delayLength` zeros, then everything added. */
    ghost function PaddedVolumes(): seq<int>
      reads this
      requires delayLength >= 0
    {
      Zeros(delayLength) + volumes
    }

    ghost function PaddedPrices(): seq<int>
      reads this
      requires delayLength >= 0
    {
      Zeros(delayLength) + prices
    }

    /** Position of the `j`-th oldest slot, counting from `oldestIndex`. */
    function Slot(j: int): int
      reads this
    {
      Ring(oldestIndex, j, delayLength)
    }

    ghost predicate Valid()
      reads this, volumeDifferenceData, tradePriceData
    {
      && delayLength >= 0
      && volumeDifferenceData.Length == delayLength
      && tradePriceData.Length == delayLength
      && volumeDifferenceData != tradePriceData
      && (0 <= oldestIndex < delayLength || oldestIndex == 0 == delayLength)
      && |volumes| == |prices|
      && (forall j :: 0 <= j < delayLength ==>
            volumeDifferenceData[Slot(j)] == PaddedVolumes()[|volumes| + j])
      && (forall j :: 0 <= j < delayLength ==>
            tradePriceData[Slot(j)] == PaddedPrices()[|prices| + j])
    }

    /** A zero delay length is accepted: both arrays are then empty, and only reading or adding fails. */
    constructor (delayLength: int)
      requires delayLength >= 0
      ensures Valid() && fresh(volumeDifferenceData) && fresh(tradePriceData)
      ensures this.delayLength == delayLength && oldestIndex == 0
      ensures volumes == [] && prices == []
    {
      this.delayLength := delayLength;
      volumeDifferenceData := new int[delayLength](_ => 0);
      tradePriceData := new int[delayLength](_ => 0);
      oldestIndex := 0;
      volumes := [];
      prices := [];
    }

    /** The volume difference added `delayLength` additions ago (0 before that many). */
    method GetOldVolumeDifferenceData() returns (r: int)
      requires Valid() && delayLength > 0
      ensures |volumes| >= delayLength ==> r == volumes[|volumes| - delayLength]
      ensures |volumes| < delayLength ==> r == 0
    {
      r := volumeDifferenceData[oldestIndex];
      assert Slot(0) == oldestIndex;
    }

    /** The trade price added `delayLength` additions ago (0 before that many). */
    method GetOldTradePriceData() returns (r: int)
      requires Valid() && delayLength > 0
      ensures |prices| >= delayLength ==> r == prices[|prices| - delayLength]
      ensures |prices| < delayLength ==> r == 0
    {
      r := tradePriceData[oldestIndex];
      assert Slot(0) == oldestIndex;
    }

    method AddData(newVolumeDifference: int, newTradePrice: int)
      requires Valid() && delayLength > 0
      modifies this`oldestIndex, this`volumes, this`prices, volumeDifferenceData, tradePriceData
      ensures Valid()
      ensures volumes == old(volumes) + [newVolumeDifference]
      ensures prices == old(prices) + [newTradePrice]
      ensures volumeDifferenceData[old(oldestIndex)] == newVolumeDifference
      ensures tradePriceData[old(oldestIndex)] == newTradePrice
      ensures forall k :: 0 <= k < delayLength && k != old(oldestIndex) ==>
                volumeDifferenceData[k] == old(volumeDifferenceData[k]) &&
                tradePriceData[k] == old(tradePriceData[k])
      ensures oldestIndex == if old(oldestIndex) + 1 >= delayLength then 0 else old(oldestIndex) + 1
    {
      ghost var oldSlot := oldestIndex;
      ghost var pv := PaddedVolumes();
      ghost var pp := PaddedPrices();
      ghost var va := volumeDifferenceData[..];
      ghost var ta := tradePriceData[..];
      ghost var n := |volumes|;
      forall j | 0 <= j < delayLength
        ensures va[Ring(oldSlot, j, delayLength)] == pv[n + j]
        ensures ta[Ring(oldSlot, j, delayLength)] == pp[n + j]
      {
        assert Slot(j) == Ring(oldSlot, j, delayLength);
      }
      volumeDifferenceData[oldestIndex] := newVolumeDifference;
      tradePriceData[oldestIndex] := newTradePrice;
      oldestIndex := oldestIndex + 1;
      if oldestIndex >= delayLength {
        oldestIndex := 0;
      }
      volumes := volumes + [newVolumeDifference];
      prices := prices + [newTradePrice];
      assert PaddedVolumes() == pv + [newVolumeDifference];
      assert PaddedPrices() == pp + [newTradePrice];
      forall j | 0 <= j < delayLength
        ensures volumeDifferenceData[Slot(j)] == PaddedVolumes()[|volumes| + j]
        ensures tradePriceData[Slot(j)] == PaddedPrices()[|prices| + j]
      {
        if j < delayLength - 1 {
          var k := Ring(oldSlot, j + 1, delayLength);
          assert Slot(j) == k && k != oldSlot;
          assert va[k] == pv[n + j + 1];
          assert ta[k] == pp[n + j + 1];
        } else {
          assert Slot(j) == oldSlot;
        }
      }
    }
  }
}
