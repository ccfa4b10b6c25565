// backend/internal/store/query.go: grouping cluster rows, newest first, into candles, oldest first.

module QueryCandles {
  import opened Binning
  import opened Cells
  import Sorting

  datatype Row = Row(ts: int, price: Price, bid: real, ask: real, openPrice: Price, closePrice: Price)

  datatype Candle = Candle(time: int, open: Price, high: Price, low: Price, close: Price,
                           volume: real, delta: real, cells: seq<Cell>)

  datatype Acc = Acc(cells: seq<Cell>, volume: real, delta: real,
                     openPrice: Price, closePrice: Price, hasOpen: bool)

  // ----- the grouping the query stands for -----

  function CellOf(r: Row): Cell {
    Cell(r.price, r.bid, r.ask)
  }

  function CellsOf(rows: seq<Row>): (cs: seq<Cell>)
    ensures |cs| == |rows| && forall i :: 0 <= i < |rows| ==> cs[i] == CellOf(rows[i])
  {
    seq(|rows|, i requires 0 <= i < |rows| => CellOf(rows[i]))
  }

  /** The rows of one candle. */
  function RowsAt(rows: seq<Row>, ts: int): seq<Row> {
    if rows == [] then []
    else
      var rest, r := RowsAt(rows[..|rows| - 1], ts), rows[|rows| - 1];
      if r.ts == ts then rest + [r] else rest
  }

  /** Candle times in the order in which they first come up. */
  function Times(rows: seq<Row>): seq<int> {
    if rows == [] then []
    else
      var rest, ts := Times(rows[..|rows| - 1]), rows[|rows| - 1].ts;
      if ts in rest then rest else rest + [ts]
  }

  lemma RowsAtAppend(rows: seq<Row>, r: Row, ts: int)
    ensures RowsAt(rows + [r], ts) == if r.ts == ts then RowsAt(rows, ts) + [r] else RowsAt(rows, ts)
    ensures Times(rows + [r]) == if r.ts in Times(rows) then Times(rows) else Times(rows) + [r.ts]
  {
    assert (rows + [r])[..|rows + [r]| - 1] == rows;
  }

  lemma {:induction false} TimesAreDistinct(rows: seq<Row>)
    ensures forall i, j :: 0 <= i < j < |Times(rows)| ==> Times(rows)[i] != Times(rows)[j]
    ensures forall r :: r in rows ==> r.ts in Times(rows)
    ensures forall ts :: ts in Times(rows) ==> RowsAt(rows, ts) != []
  {
    if rows != [] {
      var init, r := rows[..|rows| - 1], rows[|rows| - 1];
      TimesAreDistinct(init);
      assert rows == init + [r];
    }
  }

  /** Traded volume, and ask minus bid, of the rows. */
  function Volume(rows: seq<Row>): real {
    Total(CellsOf(rows), Bid, Everywhere) + Total(CellsOf(rows), Ask, Everywhere)
  }

  function Delta(rows: seq<Row>): real {
    Total(CellsOf(rows), Ask, Everywhere) - Total(CellsOf(rows), Bid, Everywhere)
  }

  ghost predicate Represents(acc: Acc, rows: seq<Row>) {
    && acc.cells == CellsOf(rows) && acc.volume == Volume(rows) && acc.delta == Delta(rows)
    && (acc.hasOpen <==> rows != [])
    && (rows != [] ==> acc.openPrice == rows[0].openPrice && acc.closePrice == rows[0].closePrice)
  }

  lemma RepresentsNone()
    ensures Represents(Acc([], 0.0, 0.0, 0, 0, false), [])
  {
  }

  lemma RowsAppend(rows: seq<Row>, r: Row)
    ensures CellsOf(rows + [r]) == CellsOf(rows) + [CellOf(r)]
    ensures Volume(rows + [r]) == Volume(rows) + (r.bid + r.ask)
    ensures Delta(rows + [r]) == Delta(rows) + (r.ask - r.bid)
  {
    assert CellsOf(rows + [r]) == CellsOf(rows) + [CellOf(r)];
    TotalAppend(CellsOf(rows), CellOf(r), Bid, Everywhere);
    TotalAppend(CellsOf(rows), CellOf(r), Ask, Everywhere);
  }

  /** c is the candle of these rows: their cells by price, the price range, the stored open and close
      when there are any, and rounded totals. */
  ghost predicate IsCandle(c: Candle, ts: int, rows: seq<Row>) {
    && c.time == ts
    && Sorting.SortedBy(c.cells, PriceOf) && multiset(c.cells) == multiset(CellsOf(rows))
    && (forall r :: r in rows ==> c.low <= r.price <= c.high)
    && (exists r :: r in rows && r.price == c.low) && (exists r :: r in rows && r.price == c.high)
    && rows != []
    && c.open == (if rows[0].openPrice > 0 then rows[0].openPrice else c.low)
    && c.close == (if rows[0].closePrice > 0 then rows[0].closePrice else c.high)
    && c.volume == Rounding.StoreRound1(Volume(rows)) && c.delta == Rounding.StoreRound1(Delta(rows))
  }

  /** Volume and delta of a candle against the exact sums of its rows: the nearest tenth from -0.05 up, one
      tenth more than that below. */
  lemma CandleTotals(c: Candle, ts: int, rows: seq<Row>)
    requires IsCandle(c, ts, rows)
    ensures var exact := Total(CellsOf(rows), Ask, Everywhere) - Total(CellsOf(rows), Bid, Everywhere);
            && (exact >= -0.05 ==> c.delta <= exact + 0.05 < c.delta + 0.1)
            && (exact < -0.05 ==> c.delta - 0.1 < exact + 0.05 <= c.delta)
    ensures var exact := Total(CellsOf(rows), Ask, Everywhere) + Total(CellsOf(rows), Bid, Everywhere);
            && (exact >= -0.05 ==> c.volume <= exact + 0.05 < c.volume + 0.1)
            && (exact < -0.05 ==> c.volume - 0.1 < exact + 0.05 <= c.volume)
    ensures Rounding.IsTenths(c.delta) && Rounding.IsTenths(c.volume)
  {
    hide Rounding.StoreRound1, Rounding.IsTenths;
    Rounding.StoreRoundMeans(Volume(rows));
    Rounding.StoreRoundMeans(Delta(rows));
  }

  // ----- the three loops -----

  method GroupRows(rows: seq<Row>) returns (candleMap: map<int, Acc>, candleOrder: seq<int>)
    ensures candleOrder == Times(rows)
    ensures forall ts :: ts in candleMap <==> ts in candleOrder
    ensures forall ts :: ts in candleMap ==> Represents(candleMap[ts], RowsAt(rows, ts))
  {
    hide Represents, Times, RowsAt;
    candleMap, candleOrder := map[], [];
    NoTimes();
    for i := 0 to |rows|
      invariant candleOrder == Times(rows[..i])
      invariant forall ts :: ts in candleMap <==> ts in candleOrder
      invariant forall ts :: ts in candleMap ==> Represents(candleMap[ts], RowsAt(rows[..i], ts))
      invariant forall ts :: ts !in candleMap ==> RowsAt(rows[..i], ts) == []
    {
      var row := rows[i];
      assert rows[..i + 1] == rows[..i] + [row];
      forall ts
        ensures RowsAt(rows[..i + 1], ts)
             == if row.ts == ts then RowsAt(rows[..i], ts) + [row] else RowsAt(rows[..i], ts)
      {
        RowsAtAppend(rows[..i], row, ts);
      }
      RowsAtAppend(rows[..i], row, row.ts);
      RepresentsNone();
      var acc := if row.ts in candleMap then candleMap[row.ts] else Acc([], 0.0, 0.0, 0, 0, false);
      if row.ts !in candleMap {
        candleOrder := candleOrder + [row.ts];
      }
      acc := TakeRow(acc, row, RowsAt(rows[..i], row.ts));
      candleMap := candleMap[row.ts := acc];
    }
    assert rows[..|rows|] == rows;
  }

  lemma NoTimes()
    ensures Times([]) == [] && forall ts :: RowsAt([], ts) == []
  {
  }

  method TakeRow(acc: Acc, row: Row, ghost before: seq<Row>) returns (r: Acc)
    requires Represents(acc, before)
    ensures Represents(r, before + [row])
  {
    hide Volume, Delta;
    RowsAppend(before, row);
    r := acc.(cells := acc.cells + [Cell(row.price, row.bid, row.ask)]);
    r := r.(volume := r.volume + (row.bid + row.ask), delta := r.delta + (row.ask - row.bid));
    if !r.hasOpen {
      r := r.(openPrice := row.openPrice, closePrice := row.closePrice, hasOpen := true);
    }
  }

  method FinishCandle(ts: int, acc: Acc, ghost rows: seq<Row>) returns (c: Candle)
    requires rows != [] && Represents(acc, rows)
    ensures IsCandle(c, ts, rows)
  {
    hide Volume, Delta, Rounding.StoreRound1;
    var cells := Sorting.Sort(acc.cells, PriceOf);
    SameLength(cells, acc.cells);
    var low, high := cells[0].price, cells[|cells| - 1].price;
    SortedRange(cells, rows);
    c := Candle(ts,
                if acc.openPrice > 0 then acc.openPrice else low, high, low,
                if acc.closePrice > 0 then acc.closePrice else high,
                Rounding.StoreRound1(acc.volume), Rounding.StoreRound1(acc.delta), cells);
  }

  lemma SameLength(a: seq<Cell>, b: seq<Cell>)
    requires multiset(a) == multiset(b)
    ensures |a| == |b|
  {
    assert |multiset(a)| == |a| && |multiset(b)| == |b|;
  }

  /** The ends of the sorted cells are the extreme prices of the rows. */
  lemma SortedRange(cells: seq<Cell>, rows: seq<Row>)
    requires cells != [] && Sorting.SortedBy(cells, PriceOf) && multiset(cells) == multiset(CellsOf(rows))
    ensures forall r :: r in rows ==> cells[0].price <= r.price <= cells[|cells| - 1].price
    ensures exists r :: r in rows && r.price == cells[0].price
    ensures exists r :: r in rows && r.price == cells[|cells| - 1].price
  {
    Sequences.MembersOfPermutation(cells, CellsOf(rows));
    forall r | r in rows ensures cells[0].price <= r.price <= cells[|cells| - 1].price {
      var i :| 0 <= i < |rows| && rows[i] == r;
      var c := CellsOf(rows)[i];
      assert c in cells;
      var j :| 0 <= j < |cells| && cells[j] == c;
      assert PriceOf(cells[0]) <= PriceOf(cells[j]) <= PriceOf(cells[|cells| - 1]);
    }
    RowOfCell(rows, cells[0]);
    RowOfCell(rows, cells[|cells| - 1]);
  }

  lemma RowOfCell(rows: seq<Row>, c: Cell)
    requires c in CellsOf(rows)
    ensures exists r :: r in rows && r.price == c.price
  {
    var cs := CellsOf(rows);
    var i :| 0 <= i < |cs| && cs[i] == c;
    assert rows[i] in rows && rows[i].price == c.price;
  }

  function Reversed<T>(s: seq<T>): (r: seq<T>)
    ensures |r| == |s| && forall i :: 0 <= i < |s| ==> r[i] == s[|s| - 1 - i]
  {
    seq(|s|, i requires 0 <= i < |s| => s[|s| - 1 - i])
  }

  /** Swap from both ends inwards. */
  method ReverseInPlace(a: array<Candle>)
    modifies a
    ensures a[..] == Reversed(old(a[..]))
  {
    hide Reversed;
    ghost var goal := Reversed(a[..]);
    var i, j := 0, a.Length - 1;
    while i < j
      invariant 0 <= i <= a.Length && j == a.Length - 1 - i && i <= j + 2
      invariant forall k :: 0 <= k < i || j < k < a.Length ==> a[k] == goal[k]
      invariant forall k :: i <= k <= j ==> a[k] == old(a[..])[k]
    {
      assert goal[i] == old(a[..])[j] && goal[j] == old(a[..])[i];
      a[i], a[j] := a[j], a[i];
      i, j := i + 1, j - 1;
    }
    assert i == j ==> goal[i] == old(a[..])[i];
    assert a[..] == goal;
  }

  method QueryCandles(rows: seq<Row>) returns (candles: seq<Candle>)
    ensures |candles| == |Times(rows)|
    ensures forall i :: 0 <= i < |candles| ==>
              var ts := Reversed(Times(rows))[i]; IsCandle(candles[i], ts, RowsAt(rows, ts))
  {
    hide IsCandle, Represents, RowsAt, Times, Reversed;
    var candleMap, candleOrder := GroupRows(rows);
    TimesAreDistinct(rows);
    var list := FinishCandles(candleMap, candleOrder, rows);
    var a := new Candle[|list|](i requires 0 <= i < |list| => list[i]);
    assert a[..] == list;
    ReverseInPlace(a);
    candles := a[..];
    forall i | 0 <= i < |candles|
      ensures var ts := Reversed(Times(rows))[i]; IsCandle(candles[i], ts, RowsAt(rows, ts))
    {
      assert candles[i] == list[|list| - 1 - i];
    }
  }

  method FinishCandles(candleMap: map<int, Acc>, candleOrder: seq<int>, ghost rows: seq<Row>)
    returns (list: seq<Candle>)
    requires forall ts :: ts in candleOrder ==>
               ts in candleMap && Represents(candleMap[ts], RowsAt(rows, ts)) && RowsAt(rows, ts) != []
    ensures |list| == |candleOrder|
    ensures forall k :: 0 <= k < |list| ==> IsCandle(list[k], candleOrder[k], RowsAt(rows, candleOrder[k]))
  {
    hide IsCandle, Represents, RowsAt;
    list := [];
    for i := 0 to |candleOrder|
      invariant |list| == i
      invariant forall k :: 0 <= k < i ==> IsCandle(list[k], candleOrder[k], RowsAt(rows, candleOrder[k]))
    {
      var ts := candleOrder[i];
      assert ts in candleOrder;
      var c := FinishCandle(ts, candleMap[ts], RowsAt(rows, ts));
      list := list + [c];
    }
  }

  // ----- what callers rely on -----

  ghost predicate NewestFirst(rows: seq<Row>) {
    forall i, j :: 0 <= i < j < |rows| ==> rows[i].ts >= rows[j].ts
  }

  lemma {:induction false} TimesDescend(rows: seq<Row>)
    requires NewestFirst(rows)
    ensures forall i, j :: 0 <= i < j < |Times(rows)| ==> Times(rows)[i] > Times(rows)[j]
    ensures rows != [] ==> forall ts :: ts in Times(rows) ==> ts >= rows[|rows| - 1].ts
  {
    if rows != [] {
      var init, r := rows[..|rows| - 1], rows[|rows| - 1];
      TimesDescend(init);
      forall i | 0 <= i < |init| ensures init[i].ts >= r.ts {
        assert rows[i].ts >= rows[|rows| - 1].ts;
      }
      var before := Times(init);
      forall i | 0 <= i < |before| && r.ts !in before ensures before[i] > r.ts {
        assert before[i] in before;
      }
    }
  }

  /** Rows that come newest first give candles oldest first, no time twice. */
  lemma CandlesAscend(rows: seq<Row>, candles: seq<Candle>)
    requires NewestFirst(rows) && |candles| == |Times(rows)|
    requires forall i :: 0 <= i < |candles| ==>
               var ts := Reversed(Times(rows))[i]; IsCandle(candles[i], ts, RowsAt(rows, ts))
    ensures forall i, j :: 0 <= i < j < |candles| ==> candles[i].time < candles[j].time
  {
    hide RowsAt, Times;
    TimesDescend(rows);
    forall i, j | 0 <= i < j < |candles| ensures candles[i].time < candles[j].time {
      assert Reversed(Times(rows))[i] < Reversed(Times(rows))[j];
    }
  }

  /** All cells of all candles. */
  function Pooled(candles: seq<Candle>): multiset<Cell> {
    if candles == [] then multiset{}
    else Pooled(candles[..|candles| - 1]) + multiset(candles[|candles| - 1].cells)
  }

  function PooledRows(rows: seq<Row>, times: seq<int>): multiset<Cell> {
    if times == [] then multiset{}
    else PooledRows(rows, times[..|times| - 1]) + multiset(CellsOf(RowsAt(rows, times[|times| - 1])))
  }

  lemma {:induction false} PoolAppend(rows: seq<Row>, r: Row, times: seq<int>)
    requires forall i, j :: 0 <= i < j < |times| ==> times[i] != times[j]
    ensures PooledRows(rows + [r], times)
         == PooledRows(rows, times) + if r.ts in times then multiset{CellOf(r)} else multiset{}
  {
    hide RowsAt;
    if times != [] {
      var init, ts := times[..|times| - 1], times[|times| - 1];
      assert times == init + [ts];
      PoolAppend(rows, r, init);
      RowsAtAppend(rows, r, ts);
      RowsAppend(RowsAt(rows, ts), r);
      assert ts !in init;
    }
  }

  lemma {:induction false} PoolsAllRows(rows: seq<Row>, times: seq<int>)
    requires forall i, j :: 0 <= i < j < |times| ==> times[i] != times[j]
    requires forall r :: r in rows ==> r.ts in times
    ensures PooledRows(rows, times) == multiset(CellsOf(rows))
  {
    if rows == [] {
      PoolsNothing(times);
    } else {
      var init, r := rows[..|rows| - 1], rows[|rows| - 1];
      assert rows == init + [r] && r in rows;
      PoolsAllRows(init, times);
      PoolAppend(init, r, times);
      RowsAppend(init, r);
    }
  }

  lemma {:induction false} PoolsNothing(times: seq<int>)
    ensures PooledRows([], times) == multiset{}
  {
    if times != [] {
      PoolsNothing(times[..|times| - 1]);
    }
  }

  lemma {:induction false} PoolOfCandles(rows: seq<Row>, times: seq<int>, candles: seq<Candle>)
    requires |candles| == |times|
    requires forall i :: 0 <= i < |candles| ==> IsCandle(candles[i], times[i], RowsAt(rows, times[i]))
    ensures Pooled(candles) == PooledRows(rows, times)
  {
    hide RowsAt;
    if times != [] {
      var n := |times| - 1;
      PoolOfCandles(rows, times[..n], candles[..n]);
      assert IsCandle(candles[n], times[n], RowsAt(rows, times[n]));
    }
  }

  /** Every row ends up in exactly one candle. */
  lemma EveryRowInOneCandle(rows: seq<Row>, candles: seq<Candle>)
    requires |candles| == |Times(rows)|
    requires forall i :: 0 <= i < |candles| ==>
               var ts := Reversed(Times(rows))[i]; IsCandle(candles[i], ts, RowsAt(rows, ts))
    ensures Pooled(candles) == multiset(CellsOf(rows))
  {
    hide IsCandle, RowsAt, Times;
    var times := Reversed(Times(rows));
    TimesAreDistinct(rows);
    forall r | r in rows ensures r.ts in times {
      var i :| 0 <= i < |Times(rows)| && Times(rows)[i] == r.ts;
      assert times[|times| - 1 - i] == r.ts;
    }
    PoolOfCandles(rows, times, candles);
    PoolsAllRows(rows, times);
  }
}
