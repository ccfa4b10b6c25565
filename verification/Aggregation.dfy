// backend/internal/aggregate/aggregator.go: the live aggregator and the merge into coarser bins.

module Aggregation {
  import opened Binning
  import opened Cells
  import Snapshots
  import opened Trades

  class Aggregator {
    const tickSize: nat
    const comp: nat

    var cells: map<Price, Cell>
    var seen: set<int>
    var lastTradeID: int
    var firstTradePrice: Price
    var lastTradePrice: Price
    var tradeCount: nat

    // The kept trades the aggregator stands for, in arrival order, and the gaps reported among them.
    ghost var log: seq<Trade>
    ghost var gaps: seq<Gap>
    // Everything kept since construction; a flush empties `log` but not this.
    ghost var history: seq<Trade>
    ghost var neverFlushed: bool

    /** Width of this aggregator's bins. */
    ghost function Size(): (size: nat)
      requires tickSize > 0 && comp > 0
      ensures size > 0
    {
      BinSize(tickSize, comp)
    }

    ghost predicate Valid()
      reads this
    {
      && tickSize > 0 && comp > 0
      && seen == Ids(log) && lastTradeID == MaxId(log)
      && Accounts(cells, log, gaps, Size())
      && tradeCount == |history|
      && (history != [] ==> firstTradePrice == history[0].price)
      && (history != [] ==> lastTradePrice == history[tradeCount - 1].price)
      && (neverFlushed ==> history == log)
    }

    constructor (tickSize: nat, compression: nat)
      requires tickSize > 0 && compression > 0
      ensures Valid() && this.tickSize == tickSize && comp == compression
      ensures log == [] && gaps == [] && history == [] && neverFlushed
    {
      this.tickSize, comp := tickSize, compression;
      cells, seen, lastTradeID := map[], {}, 0;
      firstTradePrice, lastTradePrice, tradeCount := 0, 0, 0;
      log, gaps, history, neverFlushed := [], [], [], true;
      NothingAccounted(BinSize(tickSize, compression));
    }

    lemma LogIsDistinct()
      requires Valid()
      ensures DistinctIds(log)
    {
    }

    method ProcessTrade(t: Trade) returns (gapStart: int, gapEnd: int, hasGap: bool)
      requires Valid()
      modifies this
      ensures Valid() && neverFlushed == old(neverFlushed)
      ensures log == if t.id in Ids(old(log)) then old(log) else old(log) + [t]
      ensures history == if t.id in Ids(old(log)) then old(history) else old(history) + [t]
      ensures hasGap <==> t.id !in Ids(old(log)) && MaxId(old(log)) > 0 && t.id > MaxId(old(log)) + 1
      ensures gaps == old(gaps) + if hasGap then [Gap(gapStart, gapEnd)] else []
      ensures hasGap ==> gapStart == MaxId(old(log)) + 1 && gapEnd == t.id - 1
      ensures !hasGap ==> gapStart == 0 && gapEnd == 0
      ensures forall id :: hasGap && gapStart <= id <= gapEnd ==> id !in Ids(old(log))
    {
      hide Accounts, Bin, BinSize, Ids, MaxId, AddTo;
      if t.id in seen {
        return 0, 0, false;
      }
      gapStart, gapEnd, hasGap := NoteId(t.id);
      var bin := BinPriceLow(t.price, tickSize, comp);
      Accumulate(bin, t);
      TrackPrice(t.price);

      MaxIdIsHighest(log);
      log, history, gaps := log + [t], history + [t], gaps + NewGaps(MaxId(log), t.id);
      AccountsStep(old(cells), old(log), old(gaps), Size(), t);
    }

    /** Record a new trade ID; report the IDs it skips. */
    method NoteId(id: int) returns (gapStart: int, gapEnd: int, hasGap: bool)
      modifies `seen, `lastTradeID
      ensures seen == old(seen) + {id}
      ensures lastTradeID == if id > old(lastTradeID) then id else old(lastTradeID)
      ensures hasGap <==> old(lastTradeID) > 0 && id > old(lastTradeID) + 1
      ensures hasGap ==> gapStart == old(lastTradeID) + 1 && gapEnd == id - 1
      ensures !hasGap ==> gapStart == 0 && gapEnd == 0
    {
      gapStart, gapEnd, hasGap := 0, 0, false;
      seen := seen + {id};
      if lastTradeID > 0 && id > lastTradeID + 1 {
        gapStart, gapEnd, hasGap := lastTradeID + 1, id - 1, true;
      }
      if id > lastTradeID {
        lastTradeID := id;
      }
    }

    /** Open and close tracking. */
    method TrackPrice(price: Price)
      modifies `firstTradePrice, `lastTradePrice, `tradeCount
      ensures firstTradePrice == if old(tradeCount) == 0 then price else old(firstTradePrice)
      ensures lastTradePrice == price && tradeCount == old(tradeCount) + 1
    {
      if tradeCount == 0 {
        firstTradePrice := price;
      }
      lastTradePrice := price;
      tradeCount := tradeCount + 1;
    }

    method Accumulate(bin: Price, t: Trade)
      modifies `cells
      ensures cells == AddTo(old(cells), bin, AsCell(t))
    {
      var cell := if bin in cells then cells[bin] else Cell(bin, 0.0, 0.0);
      if t.isBuyerMaker {
        cell := cell.(bid := cell.bid + t.qty);
      } else {
        cell := cell.(ask := cell.ask + t.qty);
      }
      cells := cells[bin := cell];
    }

    /** The rounded, price-sorted cells of the current log. */
    method Cells() returns (r: seq<Cell>)
      requires Valid()
      ensures IsSnapshot(r, Group(AsCells(log), Size()))
      ensures comp * tickSize > 0 && ListsTrades(r, log, comp * tickSize)
    {
      r := Snapshots.Snapshot(cells);
      SnapshotListsTrades(r, log, tickSize, comp);
    }

    method Flush() returns (r: seq<Cell>)
      requires Valid()
      modifies this
      ensures Valid() && log == [] && gaps == [] && history == old(history) && !neverFlushed
      ensures IsSnapshot(r, Group(AsCells(old(log)), Size()))
      ensures comp * tickSize > 0 && ListsTrades(r, old(log), comp * tickSize)
    {
      r := Snapshots.Snapshot(cells);
      SnapshotListsTrades(r, log, tickSize, comp);
      cells := map[];
      seen := {};
      lastTradeID := 0;
      log, gaps, neverFlushed := [], [], false;
      NothingAccounted(Size());
    }

    method OpenPrice() returns (p: Price)
      requires Valid()
      ensures history != [] ==> p == history[0].price
    {
      p := firstTradePrice;
    }

    method ClosePrice() returns (p: Price)
      requires Valid()
      ensures history != [] ==> p == history[|history| - 1].price
    {
      p := lastTradePrice;
    }
  }

  /** r lists, by price, the touched bins of the given width: buyer-maker quantity traded in the bin as its
      bid, all other as its ask, both rounded. */
  ghost predicate ListsTrades(r: seq<Cell>, ts: seq<Trade>, width: nat)
    requires width > 0
  {
    && (forall i, j :: 0 <= i < j < |r| ==> r[i].price < r[j].price)
    && Prices(r) == (set t | t in ts :: FloorTo(t.price, width))
    && (forall c :: c in r ==>
          && c.bid == Rounding.RoundTenth(QtyIn(ts, true, c.price, c.price + width))
          && c.ask == Rounding.RoundTenth(QtyIn(ts, false, c.price, c.price + width)))
  }

  lemma SnapshotListsTrades(r: seq<Cell>, ts: seq<Trade>, tickSize: nat, comp: nat)
    requires tickSize > 0 && comp > 0 && IsSnapshot(r, Group(AsCells(ts), BinSize(tickSize, comp)))
    ensures comp * tickSize > 0 && ListsTrades(r, ts, comp * tickSize)
  {
    hide IsSnapshot, Group, Lists, ListsTrades, AsCells;
    assert BinSize(tickSize, comp) == comp * tickSize;
    hide BinSize;
    SnapshotLists(r, AsCells(ts), BinSize(tickSize, comp));
    ListsOfTrades(r, ts, BinSize(tickSize, comp));
  }

  lemma ListsOfTrades(r: seq<Cell>, ts: seq<Trade>, width: nat)
    requires width > 0 && Lists(r, AsCells(ts), width)
    ensures ListsTrades(r, ts, width)
  {
    hide Rounding.RoundTenth, AsCells, BidIn, AskIn, QtyIn, FloorTo;
    forall c | c in r
      ensures c.bid == Rounding.RoundTenth(QtyIn(ts, true, c.price, c.price + width))
      ensures c.ask == Rounding.RoundTenth(QtyIn(ts, false, c.price, c.price + width))
    {
      SidesOfTrades(ts, c.price, c.price + width);
    }
    FloorsOfTrades(ts, width);
  }

  lemma FloorsOfTrades(ts: seq<Trade>, width: nat)
    requires width > 0
    ensures Floors(AsCells(ts), width) == set t | t in ts :: FloorTo(t.price, width)
  {
    hide FloorTo;
    var cs, floors := AsCells(ts), set t | t in ts :: FloorTo(t.price, width);
    forall d | d in cs ensures FloorTo(d.price, width) in floors {
      var i :| 0 <= i < |cs| && cs[i] == d;
      assert ts[i] in ts && ts[i].price == d.price;
    }
    forall t | t in ts ensures FloorTo(t.price, width) in Floors(cs, width) {
      var i :| 0 <= i < |ts| && ts[i] == t;
      assert cs[i] in cs && cs[i].price == t.price;
    }
  }

  lemma KeptNone(log: seq<Trade>)
    ensures Kept(log, []) == log
  {
  }

  /** Feed a batch of trades, as the replay of a filled gap does. */
  method ProcessAll(agg: Aggregator, trades: seq<Trade>)
    requires agg.Valid()
    modifies agg
    ensures agg.Valid() && agg.neverFlushed == old(agg.neverFlushed)
    ensures agg.log == Kept(old(agg.log), trades)
    ensures (forall t :: t in trades ==> t.id <= MaxId(old(agg.log)))
            ==> agg.gaps == old(agg.gaps) && MaxId(agg.log) == MaxId(old(agg.log))
  {
    hide Bin, BinSize, Accounts, MaxId, Ids, Kept;
    KeptNone(agg.log);
    for i := 0 to |trades|
      invariant agg.Valid() && agg.neverFlushed == old(agg.neverFlushed)
      invariant agg.log == Kept(old(agg.log), trades[..i])
      invariant (forall t :: t in trades[..i] ==> t.id <= MaxId(old(agg.log)))
                ==> agg.gaps == old(agg.gaps) && MaxId(agg.log) == MaxId(old(agg.log))
    {
      assert trades[..i + 1] == trades[..i] + [trades[i]];
      KeptAppend(old(agg.log), trades[..i], trades[i]);
      IdsAppend(agg.log, trades[i]);
      var _, _, _ := agg.ProcessTrade(trades[i]);
    }
    assert trades[..|trades|] == trades;
  }

  /** The cells are the exact aggregation of the log, and its gaps cover what is missing in it. */
  ghost predicate Accounts(cells: map<Price, Cell>, log: seq<Trade>, gaps: seq<Gap>, size: nat)
    requires size > 0
  {
    && DistinctIds(log)
    && cells == Group(AsCells(log), size)
    && (PositiveIds(log) ==> Covered(log, gaps))
  }

  lemma NothingAccounted(size: nat)
    requires size > 0
    ensures Accounts(map[], [], [], size) && Ids([]) == {} && MaxId([]) == 0
  {
    assert AsCells([]) == [];
  }

  lemma AccountsStep(cells: map<Price, Cell>, log: seq<Trade>, gaps: seq<Gap>, size: nat, t: Trade)
    requires size > 0 && Accounts(cells, log, gaps, size) && t.id !in Ids(log)
    ensures Accounts(AddTo(cells, Bin(t.price, size), AsCell(t)), log + [t], gaps + NewGaps(MaxId(log), t.id), size)
    ensures Ids(log + [t]) == Ids(log) + {t.id}
    ensures MaxId(log + [t]) == if t.id > MaxId(log) then t.id else MaxId(log)
  {
    LogGrows(log, t);
    GroupAppend(AsCells(log), AsCell(t), size);
    CoverageKept(log, gaps, t);
  }

  lemma CoverageKept(log: seq<Trade>, gaps: seq<Gap>, t: Trade)
    requires PositiveIds(log) ==> Covered(log, gaps)
    ensures PositiveIds(log + [t]) ==> Covered(log + [t], gaps + NewGaps(MaxId(log), t.id))
  {
    if PositiveIds(log + [t]) {
      assert forall u :: u in log ==> u in log + [t];
      CoverageStep(log, gaps, t);
    }
  }

  lemma ThreeFactors(g: nat, comp: nat, tick: nat)
    requires g > 0 && comp > 0 && tick > 0
    ensures g * comp * tick == Coarser(g, BinSize(tick, comp))
  {
    Reassociate(g, comp, tick);
  }

  /** MergeCells with the width of the new bins: groupSize base bins side by side. */
  method MergeCells(base: seq<Cell>, groupSize: nat, baseTickSize: nat, baseComp: nat) returns (r: seq<Cell>)
    requires baseTickSize > 0 && baseComp > 0
    ensures base == [] || groupSize == 0 ==> r == []
    ensures groupSize > 0 ==> IsSnapshot(r, Group(base, Coarser(groupSize, BinSize(baseTickSize, baseComp))))
    ensures base != [] && groupSize > 0 ==>
              groupSize * baseComp * baseTickSize > 0 && Lists(r, base, groupSize * baseComp * baseTickSize)
  {
    if base == [] || groupSize == 0 {
      return [];
    }
    var newBinSize := groupSize * baseComp * baseTickSize;
    ThreeFactors(groupSize, baseComp, baseTickSize);
    var merged := Accumulated(base, newBinSize);
    GroupShape(base, newBinSize);
    r := Snapshots.Snapshot(merged);
    SnapshotLists(r, base, newBinSize);
  }

  method Accumulated(base: seq<Cell>, binSize: nat) returns (merged: map<Price, Cell>)
    requires binSize > 0
    ensures merged == Group(base, binSize)
  {
    hide Bin, Group;
    merged := map[];
    GroupShape([], binSize);
    for i := 0 to |base|
      invariant merged == Group(base[..i], binSize)
    {
      var c := base[i];
      var newBin := Bin(c.price, binSize);
      var cell := if newBin in merged then merged[newBin] else Cell(newBin, 0.0, 0.0);
      cell := Cell(cell.price, cell.bid + c.bid, cell.ask + c.ask);
      GroupAppend(base[..i], c, binSize);
      assert base[..i + 1] == base[..i] + [c];
      merged := merged[newBin := cell];
    }
    assert base[..|base|] == base;
  }
}
