// frontend-chart/src/components/ClusterChart.tsx, the range volume profile: binning cell volumes by
// price, the point of control, and the 70% value area grown around it one bin at a time.

module VolumeProfile {
  import Binning

  datatype PricedVolume = PricedVolume(price: Binning.Price, volume: real)

  /** Volume of the bins lo, ..., hi - 1. */
  function RangeSum(bins: seq<real>, lo: nat, hi: nat): real
    requires lo <= hi <= |bins|
    decreases hi
  {
    if lo == hi then 0.0 else RangeSum(bins, lo, hi - 1) + bins[hi - 1]
  }

  lemma {:induction false} RangeSumFirst(bins: seq<real>, lo: nat, hi: nat)
    requires lo < hi <= |bins|
    ensures RangeSum(bins, lo, hi) == bins[lo] + RangeSum(bins, lo + 1, hi)
    decreases hi
  {
    if lo + 1 < hi {
      RangeSumFirst(bins, lo, hi - 1);
    }
  }

  // ----- binning -----

  /** Bins count downwards from the top of the range; what lies beyond goes into the end bins. */
  function BinOf(price: Binning.Price, maxPrice: Binning.Price, priceStep: nat, bucketCount: nat): (b: nat)
    requires priceStep > 0 && bucketCount > 0
    ensures b < bucketCount
  {
    var i := (maxPrice - price) / priceStep;
    if i < 0 then 0 else if i > bucketCount - 1 then bucketCount - 1 else i
  }

  /** Bin b holds the prices from (b + 1) steps below the top, excluded, up to b steps below it; the first
      bin also takes what lies above the top, the last one what lies below its own range. */
  lemma BinHolds(price: Binning.Price, maxPrice: Binning.Price, priceStep: nat, bucketCount: nat, b: nat)
    requires priceStep > 0 && b < bucketCount
    ensures BinOf(price, maxPrice, priceStep, bucketCount) == b <==>
            && (b == 0 || price <= maxPrice - b * priceStep)
            && (b == bucketCount - 1 || price > maxPrice - (b + 1) * priceStep)
  {
    var i, d := (maxPrice - price) / priceStep, maxPrice - price;
    StepsBelow(d, priceStep, b);
    StepsBelow(d, priceStep, b + 1);
  }

  /** At least k steps below the top. */
  lemma StepsBelow(d: int, step: nat, k: int)
    requires step > 0
    ensures d / step >= k <==> d >= k * step
  {
    Binning.DivBounds(d, step);
    if d / step >= k {
      Binning.MulMonotone(k, d / step, step);
    } else {
      Binning.MulMonotone(d / step + 1, k, step);
    }
  }

  /** What the contributions add to bin b. */
  function BinVolume(cells: seq<PricedVolume>, maxPrice: Binning.Price, priceStep: nat, bucketCount: nat, b: nat): real
    requires priceStep > 0 && bucketCount > 0
  {
    if cells == [] then 0.0
    else
      var c := cells[|cells| - 1];
      BinVolume(cells[..|cells| - 1], maxPrice, priceStep, bucketCount, b)
      + if BinOf(c.price, maxPrice, priceStep, bucketCount) == b then c.volume else 0.0
  }

  function VolumeOf(cells: seq<PricedVolume>): real {
    if cells == [] then 0.0 else VolumeOf(cells[..|cells| - 1]) + cells[|cells| - 1].volume
  }

  lemma {:induction false} RangeSumOfUpdate(bins: seq<real>, b: nat, v: real, lo: nat, hi: nat)
    requires b < |bins| && lo <= hi <= |bins|
    ensures RangeSum(bins[b := bins[b] + v], lo, hi) == RangeSum(bins, lo, hi) + if lo <= b < hi then v else 0.0
    decreases hi
  {
    if lo < hi {
      RangeSumOfUpdate(bins, b, v, lo, hi - 1);
    }
  }

  lemma {:induction false} RangeSumOfZeros(bins: seq<real>, lo: nat, hi: nat)
    requires lo <= hi <= |bins| && forall b :: 0 <= b < |bins| ==> bins[b] == 0.0
    ensures RangeSum(bins, lo, hi) == 0.0
    decreases hi
  {
    if lo < hi {
      RangeSumOfZeros(bins, lo, hi - 1);
    }
  }

  /** Every contribution lands in exactly one bin, so the profile carries the whole volume. */
  method BuildBins(cells: seq<PricedVolume>, maxPrice: Binning.Price, priceStep: nat, bucketCount: nat)
    returns (bins: seq<real>)
    requires priceStep > 0 && bucketCount > 0
    ensures |bins| == bucketCount
    ensures forall b :: 0 <= b < bucketCount ==> bins[b] == BinVolume(cells, maxPrice, priceStep, bucketCount, b)
    ensures RangeSum(bins, 0, bucketCount) == VolumeOf(cells)
  {
    hide BinOf;
    bins := seq(bucketCount, i => 0.0);
    RangeSumOfZeros(bins, 0, bucketCount);
    for i := 0 to |cells|
      invariant |bins| == bucketCount
      invariant forall b :: 0 <= b < bucketCount ==>
                  bins[b] == BinVolume(cells[..i], maxPrice, priceStep, bucketCount, b)
      invariant RangeSum(bins, 0, bucketCount) == VolumeOf(cells[..i])
    {
      assert cells[..i + 1][..i] == cells[..i];
      var b := BinOf(cells[i].price, maxPrice, priceStep, bucketCount);
      RangeSumOfUpdate(bins, b, cells[i].volume, 0, bucketCount);
      bins := bins[b := bins[b] + cells[i].volume];
    }
    assert cells[..|cells|] == cells;
  }

  // ----- the value area as a simple recursion -----

  /** Grow the window by its larger neighbour, the lower index on a tie, while its volume misses the
      target and there is a neighbour. */
  function Expand(bins: seq<real>, lo: nat, hi: nat, target: real): (w: (nat, nat))
    requires lo <= hi < |bins|
    ensures w.0 <= lo && hi <= w.1 < |bins|
    decreases lo + (|bins| - hi)
  {
    if RangeSum(bins, lo, hi + 1) >= target || (lo == 0 && hi == |bins| - 1) then (lo, hi)
    else if lo > 0 && (hi == |bins| - 1 || bins[lo - 1] >= bins[hi + 1]) then Expand(bins, lo - 1, hi, target)
    else Expand(bins, lo, hi + 1, target)
  }

  /** The window reaches the target or is everything, and before its last step it was below the target. */
  lemma {:induction false} ExpandStopsInTime(bins: seq<real>, lo: nat, hi: nat, target: real)
    requires lo <= hi < |bins|
    ensures var w := Expand(bins, lo, hi, target);
            && (RangeSum(bins, w.0, w.1 + 1) >= target || w == (0, |bins| - 1))
            && (w == (lo, hi)
                || (w.0 < lo && RangeSum(bins, w.0 + 1, w.1 + 1) < target)
                || (w.1 > hi && RangeSum(bins, w.0, w.1) < target))
    decreases lo + (|bins| - hi)
  {
    if RangeSum(bins, lo, hi + 1) >= target || (lo == 0 && hi == |bins| - 1) {
    } else if lo > 0 && (hi == |bins| - 1 || bins[lo - 1] >= bins[hi + 1]) {
      ExpandStopsInTime(bins, lo - 1, hi, target);
    } else {
      ExpandStopsInTime(bins, lo, hi + 1, target);
    }
  }

  /** A bin taken below the start was at least as large as the upper neighbour the window had then, which
      is one of the bins up to the one above the final window; or there was no upper neighbour left. */
  lemma {:induction false} TakenBelow(bins: seq<real>, lo: nat, hi: nat, target: real, i: nat) returns (j: nat)
    requires lo <= hi < |bins| && Expand(bins, lo, hi, target).0 <= i < lo
    ensures hi < j <= Expand(bins, lo, hi, target).1 + 1
    ensures j == |bins| || bins[i] >= bins[j]
    decreases lo + (|bins| - hi)
  {
    if lo > 0 && (hi == |bins| - 1 || bins[lo - 1] >= bins[hi + 1]) {
      if i == lo - 1 {
        j := hi + 1;
      } else {
        j := TakenBelow(bins, lo - 1, hi, target, i);
      }
    } else {
      j := TakenBelow(bins, lo, hi + 1, target, i);
    }
  }

  /** A bin taken above the start was larger than the lower neighbour the window had then; or there was none. */
  lemma {:induction false} TakenAbove(bins: seq<real>, lo: nat, hi: nat, target: real, j: nat) returns (i: int)
    requires lo <= hi < |bins| && hi < j <= Expand(bins, lo, hi, target).1
    ensures Expand(bins, lo, hi, target).0 - 1 <= i < lo
    ensures i < 0 || bins[j] > bins[i]
    decreases lo + (|bins| - hi)
  {
    if lo > 0 && (hi == |bins| - 1 || bins[lo - 1] >= bins[hi + 1]) {
      i := TakenAbove(bins, lo - 1, hi, target, j);
    } else if j == hi + 1 {
      i := lo - 1;
    } else {
      i := TakenAbove(bins, lo, hi + 1, target, j);
    }
  }

  /** From the middle of 2.5, 5, 3 the larger neighbour is taken. */
  lemma LargerNeighbourFirst()
    ensures Expand([2.5, 5.0, 3.0], 1, 1, 7.35) == (1, 2)
  {
    var bins := [2.5, 5.0, 3.0];
    assert RangeSum(bins, 1, 1) == 0.0 && RangeSum(bins, 1, 2) == 5.0 && RangeSum(bins, 1, 3) == 8.0;
  }

  /** At least 70% of a positive total ends up in the window. */
  lemma ExpandReachesTarget(bins: seq<real>, poc: nat)
    requires poc < |bins| && RangeSum(bins, 0, |bins|) > 0.0
    ensures var total := RangeSum(bins, 0, |bins|); var w := Expand(bins, poc, poc, total * 0.7);
            RangeSum(bins, w.0, w.1 + 1) >= total * 0.7
  {
    ExpandStopsInTime(bins, poc, poc, RangeSum(bins, 0, |bins|) * 0.7);
  }

  // ----- the code -----

  method PointOfControl(bins: seq<real>) returns (pocIdx: nat, maxBinVal: real, totalVolume: real)
    requires bins != []
    ensures totalVolume == RangeSum(bins, 0, |bins|)
    ensures pocIdx < |bins| && maxBinVal >= 0.0
    ensures forall b :: 0 <= b < |bins| ==> bins[b] <= maxBinVal
    ensures if maxBinVal > 0.0 then bins[pocIdx] == maxBinVal && forall b :: 0 <= b < pocIdx ==> bins[b] < maxBinVal
            else pocIdx == 0
  {
    totalVolume, maxBinVal, pocIdx := 0.0, 0.0, 0;
    for b := 0 to |bins|
      invariant totalVolume == RangeSum(bins, 0, b)
      invariant pocIdx < |bins| && maxBinVal >= 0.0
      invariant forall i :: 0 <= i < b ==> bins[i] <= maxBinVal
      invariant if maxBinVal > 0.0 then bins[pocIdx] == maxBinVal && forall i :: 0 <= i < pocIdx ==> bins[i] < maxBinVal
                else pocIdx == 0
    {
      totalVolume := totalVolume + bins[b];
      if bins[b] > maxBinVal {
        maxBinVal, pocIdx := bins[b], b;
      }
    }
  }

  /** The growth loop. A missing neighbour counts as volume 0 there; `fallback` reports whether its
      third branch, for a lower neighbour passed over in favour of a missing upper one, was ever taken. */
  method GrowValueArea(bins: seq<real>, pocIdx: nat, targetVolume: real)
    returns (lowIdx: nat, highIdx: nat, vaVolume: real, ghost fallback: bool)
    requires pocIdx < |bins|
    ensures (lowIdx, highIdx) == Expand(bins, pocIdx, pocIdx, targetVolume)
    ensures lowIdx <= pocIdx <= highIdx < |bins| && vaVolume == RangeSum(bins, lowIdx, highIdx + 1)
    ensures (forall b :: 0 <= b < |bins| ==> bins[b] >= 0.0) ==> !fallback
  {
    lowIdx, highIdx, vaVolume, fallback := pocIdx, pocIdx, bins[pocIdx], false;
    var bucketCount := |bins|;
    assert RangeSum(bins, pocIdx, pocIdx) == 0.0;
    while vaVolume < targetVolume && (lowIdx > 0 || highIdx < bucketCount - 1)
      invariant lowIdx <= pocIdx <= highIdx < bucketCount
      invariant vaVolume == RangeSum(bins, lowIdx, highIdx + 1)
      invariant Expand(bins, pocIdx, pocIdx, targetVolume) == Expand(bins, lowIdx, highIdx, targetVolume)
      invariant (forall b :: 0 <= b < |bins| ==> bins[b] >= 0.0) ==> !fallback
      decreases lowIdx + (bucketCount - highIdx)
    {
      var addLowVol, addHighVol := 0.0, 0.0;
      if lowIdx > 0 {
        addLowVol := bins[lowIdx - 1];
        RangeSumFirst(bins, lowIdx - 1, highIdx + 1);
      }
      if highIdx < bucketCount - 1 {
        addHighVol := bins[highIdx + 1];
      }
      if addLowVol >= addHighVol && lowIdx > 0 {
        vaVolume, lowIdx := vaVolume + addLowVol, lowIdx - 1;
      } else if highIdx < bucketCount - 1 {
        vaVolume, highIdx := vaVolume + addHighVol, highIdx + 1;
      } else if lowIdx > 0 {
        vaVolume, lowIdx, fallback := vaVolume + addLowVol, lowIdx - 1, true;
      } else {
        break;
      }
    }
  }

  /** The whole block: the window around the point of control, grown only when there is volume. */
  method Profile(bins: seq<real>) returns (pocIdx: nat, lowIdx: nat, highIdx: nat, vaVolume: real)
    requires bins != []
    ensures lowIdx <= pocIdx <= highIdx < |bins| && vaVolume == RangeSum(bins, lowIdx, highIdx + 1)
    ensures var total := RangeSum(bins, 0, |bins|);
            if total > 0.0 && bins[pocIdx] > 0.0
            then (lowIdx, highIdx) == Expand(bins, pocIdx, pocIdx, total * 0.7) && vaVolume >= total * 0.7
            else lowIdx == highIdx == pocIdx
    ensures if bins[pocIdx] > 0.0
            then && (forall b :: 0 <= b < |bins| ==> bins[b] <= bins[pocIdx])
                 && (forall b :: 0 <= b < pocIdx ==> bins[b] < bins[pocIdx])
            else pocIdx == 0 && forall b :: 0 <= b < |bins| ==> bins[b] <= 0.0
  {
    var maxBinVal, totalVolume;
    pocIdx, maxBinVal, totalVolume := PointOfControl(bins);
    lowIdx, highIdx, vaVolume := pocIdx, pocIdx, bins[pocIdx];
    assert RangeSum(bins, pocIdx, pocIdx) == 0.0;
    if totalVolume > 0.0 && maxBinVal > 0.0 {
      ghost var fallback;
      ExpandReachesTarget(bins, pocIdx);
      lowIdx, highIdx, vaVolume, fallback := GrowValueArea(bins, pocIdx, totalVolume * 0.7);
    }
  }
}
