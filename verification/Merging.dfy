// What merging cells into coarser bins does to the volumes: the merged cells agree with aggregating
// the trades themselves at the coarse width, up to the rounding of the base cells.

module Merging {
  import opened Binning
  import opened Rounding
  import opened Cells

  /** A region that does not cut through any bin of width `size`. */
  ghost predicate Unites(region: Region, size: nat)
    requires size > 0
  {
    forall p: Price :: region.Holds(Bin(p, size)) == region.Holds(p)
  }

  lemma CoarseBinUnites(size: nat, g: nat, low: Price)
    requires size > 0 && g > 0
    ensures Unites(InBin(Coarser(g, size), low), size)
  {
    forall p: Price ensures Bin(Bin(p, size), Coarser(g, size)) == Bin(p, Coarser(g, size)) {
      NestedBins(p, size, g);
    }
  }

  // ----- the exact volume of a region is the sum over the bins inside it -----

  /** Exact volume, from cs, of those bins of `bins` that lie in the region. */
  function BinSum(bins: seq<Price>, cs: seq<Cell>, side: Side, size: nat, region: Region): real {
    if bins == [] then 0.0
    else
      var p := bins[|bins| - 1];
      BinSum(bins[..|bins| - 1], cs, side, size, region)
      + if region.Holds(p) then Total(cs, side, InBin(size, p)) else 0.0
  }

  ghost predicate Distinct(bins: seq<Price>) {
    forall i, j :: 0 <= i < j < |bins| ==> bins[i] != bins[j]
  }

  /** One contribution enters exactly one of the bins. */
  lemma {:induction false} BinSumAppend(bins: seq<Price>, cs: seq<Cell>, c: Cell, side: Side, size: nat, region: Region)
    requires size > 0 && Distinct(bins) && Unites(region, size)
    ensures BinSum(bins, cs + [c], side, size, region)
         == BinSum(bins, cs, side, size, region) + if Bin(c.price, size) in bins then Share(c, side, region) else 0.0
  {
    hide Bin;
    if bins != [] {
      var init, p := bins[..|bins| - 1], bins[|bins| - 1];
      BinSumAppend(init, cs, c, side, size, region);
      assert (cs + [c])[..|cs + [c]| - 1] == cs;
      assert region.Holds(Bin(c.price, size)) == region.Holds(c.price);
      assert bins == init + [p];
      assert p !in init;
    }
  }

  lemma {:induction false} Partition(bins: seq<Price>, cs: seq<Cell>, side: Side, size: nat, region: Region)
    requires size > 0 && Distinct(bins) && Unites(region, size)
    requires forall c :: c in cs ==> Bin(c.price, size) in bins
    ensures BinSum(bins, cs, side, size, region) == Total(cs, side, region)
  {
    hide Bin;
    if cs == [] {
      NothingToSum(bins, side, size, region);
    } else {
      var init, c := cs[..|cs| - 1], cs[|cs| - 1];
      assert cs == init + [c] && c in cs;
      forall d | d in init ensures Bin(d.price, size) in bins {
        assert d in cs;
      }
      Partition(bins, init, side, size, region);
      BinSumAppend(bins, init, c, side, size, region);
    }
  }

  lemma {:induction false} NothingToSum(bins: seq<Price>, side: Side, size: nat, region: Region)
    ensures BinSum(bins, [], side, size, region) == 0.0
  {
    if bins != [] {
      NothingToSum(bins[..|bins| - 1], side, size, region);
    }
  }

  // ----- rounding error of a region of base cells -----

  /** How many of the cells lie in the region. */
  function Count(base: seq<Cell>, region: Region): nat {
    if base == [] then 0
    else Count(base[..|base| - 1], region) + if region.Holds(base[|base| - 1].price) then 1 else 0
  }

  function PricesOf(base: seq<Cell>): (ps: seq<Price>)
    ensures |ps| == |base| && forall i :: 0 <= i < |base| ==> ps[i] == base[i].price
  {
    seq(|base|, i requires 0 <= i < |base| => base[i].price)
  }

  /** Every base cell is the rounded exact cell of its own bin. */
  ghost predicate RoundedFrom(base: seq<Cell>, cs: seq<Cell>, size: nat) {
    forall i :: 0 <= i < |base| ==>
      base[i] == RoundCell(Cell(base[i].price,
        Total(cs, Bid, InBin(size, base[i].price)), Total(cs, Ask, InBin(size, base[i].price))))
  }

  lemma {:induction false} RegionError(base: seq<Cell>, cs: seq<Cell>, side: Side, size: nat, region: Region)
    requires RoundedFrom(base, cs, size)
    ensures var e := Total(base, side, region) - BinSum(PricesOf(base), cs, side, size, region);
            var bound := 0.05 * Count(base, region) as real;
            -bound <= e <= bound
    ensures IsTenths(Total(base, side, region))
  {
    if base == [] {
      RoundExact(0.0);
    } else {
      var init, c := base[..|base| - 1], base[|base| - 1];
      RegionError(init, cs, side, size, region);
      assert PricesOf(base)[..|base| - 1] == PricesOf(init);
      RoundWithin(Total(cs, side, InBin(size, c.price)));
      if region.Holds(c.price) {
        TenthsAdd(Total(init, side, region), Amount(c, side));
      }
    }
  }

  // ----- a coarse bin holds at most g base cells -----

  ghost predicate OnGrid(base: seq<Cell>, size: nat)
    requires size > 0
  {
    forall i :: 0 <= i < |base| ==> Bin(base[i].price, size) == base[i].price
  }

  /** Ascending grid prices below low + u * size leave at most u of them in a bin starting at low. */
  lemma {:induction false} CountBelow(base: seq<Cell>, size: nat, g: nat, m: int, u: nat)
    requires size > 0 && g > 0 && Ascending(base) && OnGrid(base, size)
    requires forall i :: 0 <= i < |base| ==> base[i].price < m * size + u * size
    requires InBin(Coarser(g, size), m * size).Holds(m * size)
    ensures Count(base, InBin(Coarser(g, size), m * size)) <= u
  {
    hide Coarser;
    var region := InBin(Coarser(g, size), m * size);
    if base != [] {
      var init, c := base[..|base| - 1], base[|base| - 1];
      if region.Holds(c.price) {
        var k := BinIndex(c.price, size);
        assert c.price == k * size && m * size <= c.price;
        GridSteps(k, m, u, size);
        forall i | 0 <= i < |init| ensures init[i].price < m * size + (k - m) * size {
          assert PriceOf(base[i]) < PriceOf(c);
        }
        CountBelow(init, size, g, m, k - m);
      } else {
        CountBelow(init, size, g, m, u);
      }
    }
  }

  lemma GridSteps(k: int, m: int, u: nat, size: nat)
    requires size > 0 && m * size <= k * size < m * size + u * size
    ensures 0 <= k - m < u
    ensures k * size == m * size + (k - m) * size
  {
    if k < m {
      MulMonotone(k + 1, m, size);
    }
    if k - m >= u {
      MulMonotone(m + u, k, size);
    }
  }

  // ----- snapshots as base cells -----

  lemma SnapshotAsBase(cs: seq<Cell>, size: nat, base: seq<Cell>)
    requires size > 0 && IsSnapshot(base, Group(cs, size))
    ensures Distinct(PricesOf(base)) && OnGrid(base, size) && RoundedFrom(base, cs, size)
    ensures forall c :: c in cs ==> Bin(c.price, size) in PricesOf(base)
  {
    hide Bin;
    forall i, j | 0 <= i < j < |base| ensures base[i].price != base[j].price {
      assert PriceOf(base[i]) < PriceOf(base[j]);
    }
    forall i | 0 <= i < |base| ensures Bin(base[i].price, size) == base[i].price {
      assert base[i] in base && PriceOf(base[i]) in Prices(base);
      var c :| c in cs && Bin(c.price, size) == base[i].price;
      BinIdempotent(c.price, size);
    }
    forall i | 0 <= i < |base|
      ensures base[i] == RoundCell(Cell(base[i].price,
        Total(cs, Bid, InBin(size, base[i].price)), Total(cs, Ask, InBin(size, base[i].price))))
    {
      assert base[i] in base;
    }
    forall c | c in cs ensures Bin(c.price, size) in PricesOf(base) {
      assert Bin(c.price, size) in Prices(base);
      var d :| d in base && PriceOf(d) == Bin(c.price, size);
      var i :| 0 <= i < |base| && base[i] == d;
      assert PricesOf(base)[i] == Bin(c.price, size);
    }
  }

  /** The merged cells sit exactly in the bins that direct coarse binning would occupy. */
  lemma MergedBins(cs: seq<Cell>, size: nat, g: nat, base: seq<Cell>)
    requires size > 0 && g > 0 && IsSnapshot(base, Group(cs, size))
    ensures Bins(base, Coarser(g, size)) == Bins(cs, Coarser(g, size))
  {
    hide Bin, Coarser;
    var coarse := Coarser(g, size);
    SnapshotAsBase(cs, size, base);
    forall b | b in Bins(base, coarse) ensures b in Bins(cs, coarse) {
      var d :| d in base && Bin(d.price, coarse) == b;
      assert PriceOf(d) in Prices(base);
      var c :| c in cs && Bin(c.price, size) == d.price;
      NestedBins(c.price, size, g);
    }
    forall b | b in Bins(cs, coarse) ensures b in Bins(base, coarse) {
      var c :| c in cs && Bin(c.price, coarse) == b;
      var i :| 0 <= i < |base| && PricesOf(base)[i] == Bin(c.price, size);
      assert base[i] in base;
      NestedBins(c.price, size, g);
    }
  }

  /** A coarse bin draws on at most g base cells. */
  lemma MergedCount(cs: seq<Cell>, size: nat, g: nat, base: seq<Cell>, low: Price)
    requires size > 0 && g > 0 && IsSnapshot(base, Group(cs, size))
    requires Bin(low, Coarser(g, size)) == low
    ensures Count(base, InBin(Coarser(g, size), low)) <= g
  {
    var region := InBin(Coarser(g, size), low);
    SnapshotAsBase(cs, size, base);
    var m := BinIndex(low, Coarser(g, size)) * g;
    Reassociate(BinIndex(low, Coarser(g, size)), g, size);
    assert low == m * size;
    OnlyBelowCounts(base, region, low + Coarser(g, size), g, size, m);
  }

  /** The cells at or above the end of the bin do not count. */
  lemma {:induction false} OnlyBelowCounts(base: seq<Cell>, region: Region, end: Price, g: nat, size: nat, m: int)
    requires size > 0 && g > 0 && Ascending(base) && OnGrid(base, size)
    requires region == InBin(Coarser(g, size), m * size) && region.Holds(m * size)
    requires end == m * size + Coarser(g, size)
    ensures Count(base, region) <= g
  {
    if base != [] {
      var init, c := base[..|base| - 1], base[|base| - 1];
      if c.price >= end {
        OnlyBelowCounts(init, region, end, g, size, m);
      } else {
        forall i | 0 <= i < |base| ensures base[i].price < m * size + g * size {
          assert i < |base| - 1 ==> PriceOf(base[i]) < PriceOf(c);
        }
        CountBelow(base, size, g, m, g);
      }
    }
  }

  /** Merging base cells differs from aggregating the trades directly by at most half a tenth per
      base cell merged, on either side. */
  lemma MergeRefinesDirect(cs: seq<Cell>, size: nat, g: nat, base: seq<Cell>, merged: seq<Cell>, cell: Cell, side: Side)
    requires size > 0 && g > 0
    requires IsSnapshot(base, Group(cs, size)) && IsSnapshot(merged, Group(base, Coarser(g, size)))
    requires cell in merged
    ensures cell.price in Bins(cs, Coarser(g, size))
    ensures var region := InBin(Coarser(g, size), cell.price);
            var e := Amount(cell, side) - Total(cs, side, region);
            var bound := 0.05 * Count(base, region) as real;
            -bound <= e <= bound && Count(base, region) <= g
  {
    hide Bin, Coarser;
    var coarse := Coarser(g, size);
    var region := InBin(coarse, cell.price);
    assert PriceOf(cell) in Prices(merged);
    MergedBins(cs, size, g, base);
    SnapshotAsBase(base, coarse, merged);
    MergedCount(cs, size, g, base, cell.price);
    SnapshotAsBase(cs, size, base);
    CoarseBinUnites(size, g, cell.price);
    Partition(PricesOf(base), cs, side, size, region);
    RegionError(base, cs, side, size, region);
    RoundExact(Total(base, side, region));
  }

  // ----- quantities in whole tenths: nothing is lost -----

  ghost predicate InTenths(cs: seq<Cell>) {
    forall c :: c in cs ==> IsTenths(c.bid) && IsTenths(c.ask)
  }

  lemma SnapshotInTenths(r: seq<Cell>, m: map<Price, Cell>)
    requires IsSnapshot(r, m)
    ensures InTenths(r)
  {
    forall c | c in r ensures IsTenths(c.bid) && IsTenths(c.ask) {
      RoundWithin(m[c.price].bid);
      RoundWithin(m[c.price].ask);
    }
  }

  lemma {:induction false} TotalInTenths(cs: seq<Cell>, side: Side, region: Region)
    requires InTenths(cs)
    ensures IsTenths(Total(cs, side, region))
  {
    if cs == [] {
      RoundExact(0.0);
    } else {
      var init, c := cs[..|cs| - 1], cs[|cs| - 1];
      assert cs == init + [c] && c in cs;
      TotalInTenths(init, side, region);
      RoundExact(0.0);
      TenthsAdd(Total(init, side, region), Share(c, side, region));
    }
  }

  lemma {:induction false} RegionExact(base: seq<Cell>, cs: seq<Cell>, side: Side, size: nat, region: Region)
    requires RoundedFrom(base, cs, size) && InTenths(cs)
    ensures Total(base, side, region) == BinSum(PricesOf(base), cs, side, size, region)
  {
    if base != [] {
      var init, c := base[..|base| - 1], base[|base| - 1];
      RegionExact(init, cs, side, size, region);
      assert PricesOf(base)[..|base| - 1] == PricesOf(init);
      TotalInTenths(cs, side, InBin(size, c.price));
      RoundExact(Total(cs, side, InBin(size, c.price)));
    }
  }

  /** With whole tenths, a snapshot carries the exact volume of every region of bins. */
  lemma SnapshotKeepsTotals(cs: seq<Cell>, size: nat, base: seq<Cell>, side: Side, region: Region)
    requires size > 0 && IsSnapshot(base, Group(cs, size)) && InTenths(cs) && Unites(region, size)
    ensures Total(base, side, region) == Total(cs, side, region)
  {
    SnapshotAsBase(cs, size, base);
    RegionExact(base, cs, side, size, region);
    Partition(PricesOf(base), cs, side, size, region);
  }

  /** With whole tenths, merging a snapshot is aggregating the contributions at the coarse width. */
  lemma MergeIsDirect(cs: seq<Cell>, size: nat, g: nat, base: seq<Cell>)
    requires size > 0 && g > 0 && IsSnapshot(base, Group(cs, size)) && InTenths(cs)
    ensures Group(base, Coarser(g, size)) == Group(cs, Coarser(g, size))
  {
    hide Bin, Coarser;
    var coarse := Coarser(g, size);
    MergedBins(cs, size, g, base);
    forall b | b in Bins(cs, coarse) ensures Group(base, coarse)[b] == Group(cs, coarse)[b] {
      CoarseBinUnites(size, g, b);
      SnapshotKeepsTotals(cs, size, base, Bid, InBin(coarse, b));
      SnapshotKeepsTotals(cs, size, base, Ask, InBin(coarse, b));
    }
  }

  /** Total bid and total ask survive a flush or a merge of whole tenths. */
  lemma MergeConservesVolume(cs: seq<Cell>, size: nat, merged: seq<Cell>, side: Side)
    requires size > 0 && IsSnapshot(merged, Group(cs, size)) && InTenths(cs)
    ensures Total(merged, side, Everywhere) == Total(cs, side, Everywhere)
  {
    SnapshotKeepsTotals(cs, size, merged, side, Everywhere);
  }

  /** Merging by g1 and the result by g2 is merging once by g1 * g2. */
  lemma MergesCompose(base: seq<Cell>, tick: nat, comp: nat, g1: nat, g2: nat,
                      once: seq<Cell>, twice: seq<Cell>, direct: seq<Cell>)
    requires tick > 0 && comp > 0 && g1 > 0 && g2 > 0 && g1 * g2 > 0 && comp * g1 > 0 && InTenths(base)
    requires IsSnapshot(once, Group(base, Coarser(g1, BinSize(tick, comp))))
    requires IsSnapshot(twice, Group(once, Coarser(g2, BinSize(tick, comp * g1))))
    requires IsSnapshot(direct, Group(base, Coarser(g1 * g2, BinSize(tick, comp))))
    ensures twice == direct
  {
    var size := BinSize(tick, comp);
    BinSizeTimes(g1, tick, comp);
    CoarserTwice(g1, g2, size);
    MergeIsDirect(base, Coarser(g1, size), g2, once);
    SnapshotUnique(twice, direct, Group(base, Coarser(g1 * g2, size)));
  }

  /** Flushed and merged cells are in tenths whatever the traded quantities were, so from a flush on
      merging twice is merging once without any condition. */
  lemma MergesOfFlushedCompose(cs: seq<Cell>, flushed: seq<Cell>, tick: nat, comp: nat, g1: nat, g2: nat,
                               once: seq<Cell>, twice: seq<Cell>, direct: seq<Cell>)
    requires tick > 0 && comp > 0 && g1 > 0 && g2 > 0 && g1 * g2 > 0 && comp * g1 > 0
    requires IsSnapshot(flushed, Group(cs, BinSize(tick, comp)))
    requires IsSnapshot(once, Group(flushed, Coarser(g1, BinSize(tick, comp))))
    requires IsSnapshot(twice, Group(once, Coarser(g2, BinSize(tick, comp * g1))))
    requires IsSnapshot(direct, Group(flushed, Coarser(g1 * g2, BinSize(tick, comp))))
    ensures twice == direct && InTenths(direct)
  {
    hide IsSnapshot, Group, BinSize, Coarser;
    SnapshotInTenths(flushed, Group(cs, BinSize(tick, comp)));
    SnapshotInTenths(direct, Group(flushed, Coarser(g1 * g2, BinSize(tick, comp))));
    MergesCompose(flushed, tick, comp, g1, g2, once, twice, direct);
  }
}
