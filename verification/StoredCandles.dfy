// From trades to candles and back: what of the rows that backend/internal/history/pipeline.go inserts,
// and backend/internal/store/clickhouse.go cuts to one decimal, does backend/internal/store/query.go
// return? The table keeps one row per candle and price in the end, and possibly more until then.

module StoredCandles {
  import opened Binning
  import opened Cells
  import opened Decimals
  import Sorting
  import Snapshots
  import opened Trades
  import Timeframes
  import H = History
  import M = Merging
  import Q = QueryCandles

  /** A row as the query reads it. */
  function AsQueried(row: H.Row): Q.Row {
    Q.Row(row.key.candleTime, row.cell.price, row.cell.bid, row.cell.ask, row.open, row.close)
  }

  /** The rows the WHERE clause lets through. */
  function Selected(sent: seq<H.Row>, tf: string): seq<Q.Row> {
    if sent == [] then []
    else
      var rest, row := Selected(sent[..|sent| - 1], tf), sent[|sent| - 1];
      if row.key.tf == tf then rest + [AsQueried(row)] else rest
  }

  /** What the table may answer: rows that were sent, none more often than it was sent, and at least
      one for every candle time and price that was sent. Order and the replacing of rows are its own. */
  ghost predicate Answers(rows: seq<Q.Row>, sent: seq<H.Row>, tf: string) {
    && multiset(rows) <= multiset(Selected(sent, tf))
    && forall q :: q in Selected(sent, tf) ==> exists r :: r in rows && r.ts == q.ts && r.price == q.price
  }

  /** The replacing is done: no candle time and price comes twice. */
  ghost predicate Replaced(rows: seq<Q.Row>) {
    forall i, j :: 0 <= i < j < |rows| ==> rows[i].ts != rows[j].ts || rows[i].price != rows[j].price
  }

  ghost predicate Stored(sent: seq<H.Row>, rows: seq<H.Row>) {
    |sent| == |rows| && forall i :: 0 <= i < |rows| ==> sent[i] == H.AsStored(rows[i])
  }

  // ----- which rows belong to a candle -----

  lemma {:induction false} RowsAtCount(rows: seq<Q.Row>, ts: int, q: Q.Row)
    ensures multiset(Q.RowsAt(rows, ts))[q] == if q.ts == ts then multiset(rows)[q] else 0
  {
    if rows != [] {
      var init, r := rows[..|rows| - 1], rows[|rows| - 1];
      assert rows == init + [r];
      RowsAtCount(init, ts, q);
    }
  }

  lemma RowsAtMembers(rows: seq<Q.Row>, ts: int, q: Q.Row)
    ensures q in Q.RowsAt(rows, ts) <==> q in rows && q.ts == ts
  {
    RowsAtCount(rows, ts, q);
    assert q in Q.RowsAt(rows, ts) <==> multiset(Q.RowsAt(rows, ts))[q] > 0;
    assert q in rows <==> multiset(rows)[q] > 0;
  }

  lemma RowsAtSub(a: seq<Q.Row>, b: seq<Q.Row>, ts: int)
    requires multiset(a) <= multiset(b)
    ensures multiset(Q.RowsAt(a, ts)) <= multiset(Q.RowsAt(b, ts))
  {
    forall q ensures multiset(Q.RowsAt(a, ts))[q] <= multiset(Q.RowsAt(b, ts))[q] {
      RowsAtCount(a, ts, q);
      RowsAtCount(b, ts, q);
    }
  }

  lemma CellsConcat(a: seq<Q.Row>, b: seq<Q.Row>)
    ensures Q.CellsOf(a + b) == Q.CellsOf(a) + Q.CellsOf(b)
  {
  }

  lemma CellsInTheMiddle(l: seq<Q.Row>, x: Q.Row, r: seq<Q.Row>)
    ensures multiset(Q.CellsOf(l + [x] + r)) == multiset(Q.CellsOf(l + r)) + multiset{Q.CellOf(x)}
  {
    CellsConcat(l + [x], r);
    CellsConcat(l, [x]);
    CellsConcat(l, r);
    assert Q.CellsOf([x]) == [Q.CellOf(x)];
  }

  lemma {:induction false} CellsSub(a: seq<Q.Row>, b: seq<Q.Row>)
    requires multiset(a) <= multiset(b)
    ensures multiset(Q.CellsOf(a)) <= multiset(Q.CellsOf(b))
  {
    hide Q.CellsOf, Q.CellOf;
    if a == [] {
      NoCells();
    } else {
      var a', x := a[..|a| - 1], a[|a| - 1];
      assert a == a' + [x] + [] && a' + [] == a';
      var l, r := TakeOut(b, x, multiset(a'));
      CellsSub(a', l + r);
      CellsInTheMiddle(a', x, []);
      CellsInTheMiddle(l, x, r);
    }
  }

  lemma NoCells()
    ensures Q.CellsOf([]) == []
  {
  }

  lemma TakeOut(b: seq<Q.Row>, x: Q.Row, rest: multiset<Q.Row>) returns (l: seq<Q.Row>, r: seq<Q.Row>)
    requires rest + multiset{x} <= multiset(b)
    ensures b == l + [x] + r && rest <= multiset(l + r)
  {
    assert x in multiset(b);
    var i :| 0 <= i < |b| && b[i] == x;
    l, r := b[..i], b[i + 1..];
    assert b == l + [x] + r;
    assert multiset(b) == multiset(l + r) + multiset{x};
    forall y ensures rest[y] <= multiset(l + r)[y] {
      assert (rest + multiset{x})[y] <= multiset(b)[y];
    }
  }

  // ----- the candle's cells with prices cut to one decimal -----

  function Shorten(c: Cell): Cell {
    Cell(ToDecimal(c.price), c.bid, c.ask)
  }

  function Shortened(cells: seq<Cell>): (r: seq<Cell>)
    ensures |r| == |cells| && forall i :: 0 <= i < |cells| ==> r[i] == Shorten(cells[i])
  {
    seq(|cells|, i requires 0 <= i < |cells| => Shorten(cells[i]))
  }

  /** No two cells are stored at one price. */
  ghost predicate KeptApart(cells: seq<Cell>) {
    forall i, j :: 0 <= i < j < |cells| ==> ToDecimal(cells[i].price) != ToDecimal(cells[j].price)
  }

  /** Snapshot cells are in tenths already, so of a stored row only the price can change. */
  lemma {:induction false} StoredCells(sent: seq<H.Row>, rows: seq<H.Row>, key: H.CandleKey)
    requires Stored(sent, rows) && M.InTenths(H.CellsAt(rows, key))
    ensures H.CellsAt(sent, key) == Shortened(H.CellsAt(rows, key))
  {
    hide ToDecimal, Rounding.RoundTenth, Rounding.IsTenths;
    if rows != [] {
      var n := |rows| - 1;
      var row := rows[n];
      var rest := H.CellsAt(rows[..n], key);
      assert sent == sent[..n] + [sent[n]] && rows == rows[..n] + [row];
      H.CellsAtAppend(rows[..n], row, key);
      H.CellsAtAppend(sent[..n], sent[n], key);
      forall c | c in rest ensures Rounding.IsTenths(c.bid) && Rounding.IsTenths(c.ask) {
        assert c in H.CellsAt(rows, key);
      }
      StoredCells(sent[..n], rows[..n], key);
      if row.key == key {
        assert row.cell in H.CellsAt(rows, key);
        Rounding.RoundExact(row.cell.bid);
        Rounding.RoundExact(row.cell.ask);
      }
    }
  }

  lemma {:induction false} SelectedCells(sent: seq<H.Row>, tf: string, ts: int)
    ensures Q.CellsOf(Q.RowsAt(Selected(sent, tf), ts)) == H.CellsAt(sent, H.CandleKey(ts, tf))
  {
    hide Q.RowsAt;
    if sent == [] {
      Q.NoTimes();
    } else {
      var init, row := sent[..|sent| - 1], sent[|sent| - 1];
      SelectedCells(init, tf, ts);
      Q.RowsAtAppend(Selected(init, tf), AsQueried(row), ts);
      Q.RowsAppend(Q.RowsAt(Selected(init, tf), ts), AsQueried(row));
    }
  }

  lemma {:induction false} SelectedMembers(sent: seq<H.Row>, tf: string, q: Q.Row) returns (row: H.Row)
    requires q in Selected(sent, tf)
    ensures row in sent && row.key == H.CandleKey(q.ts, tf) && q == AsQueried(row)
  {
    var init, last := sent[..|sent| - 1], sent[|sent| - 1];
    assert sent == init + [last];
    if q in Selected(init, tf) {
      row := SelectedMembers(init, tf, q);
    } else {
      row := last;
    }
  }

  /** The cells the query finds for a candle: shortened cells of its snapshot, none more often than
      there, and every stored price at least once. */
  ghost predicate Offers(cells: seq<Cell>, snapshot: seq<Cell>) {
    && multiset(cells) <= multiset(Shortened(snapshot))
    && Prices(cells) == Prices(Shortened(snapshot))
  }

  lemma AnswerOffers(rows: seq<Q.Row>, sent: seq<H.Row>, inserted: seq<H.Row>, tf: string, ts: int)
    requires Stored(sent, inserted) && Answers(rows, sent, tf)
    requires M.InTenths(H.CellsAt(inserted, H.CandleKey(ts, tf)))
    ensures Offers(Q.CellsOf(Q.RowsAt(rows, ts)), H.CellsAt(inserted, H.CandleKey(ts, tf)))
  {
    hide Q.RowsAt, Stored, Shortened, M.InTenths;
    var key, mine, all := H.CandleKey(ts, tf), Q.RowsAt(rows, ts), Q.RowsAt(Selected(sent, tf), ts);
    StoredCells(sent, inserted, key);
    SelectedCells(sent, tf, ts);
    RowsAtSub(rows, Selected(sent, tf), ts);
    CellsSub(mine, all);
    forall p ensures p in Prices(Q.CellsOf(mine)) <==> p in Prices(Q.CellsOf(all)) {
      if p in Prices(Q.CellsOf(all)) {
        var q := RowAtPrice(all, p);
        RowsAtMembers(Selected(sent, tf), ts, q);
        var r :| r in rows && r.ts == q.ts && r.price == q.price;
        RowsAtMembers(rows, ts, r);
        PriceOfRow(mine, r);
      }
      if p in Prices(Q.CellsOf(mine)) {
        var c :| c in Q.CellsOf(mine) && PriceOf(c) == p;
        assert c in multiset(Q.CellsOf(mine)) && c in multiset(Q.CellsOf(all));
      }
    }
  }

  lemma RowAtPrice(rows: seq<Q.Row>, p: Price) returns (q: Q.Row)
    requires p in Prices(Q.CellsOf(rows))
    ensures q in rows && q.price == p
  {
    var cs := Q.CellsOf(rows);
    var c :| c in cs && PriceOf(c) == p;
    var i :| 0 <= i < |cs| && cs[i] == c;
    q := rows[i];
  }

  lemma PriceOfRow(rows: seq<Q.Row>, r: Q.Row)
    requires r in rows
    ensures r.price in Prices(Q.CellsOf(rows))
  {
    var i :| 0 <= i < |rows| && rows[i] == r;
    var c := Q.CellsOf(rows)[i];
    assert c in Q.CellsOf(rows) && PriceOf(c) == r.price;
  }

  // ----- what that makes of the candle -----

  lemma ShortenedAscends(snapshot: seq<Cell>)
    requires Ascending(snapshot) && KeptApart(snapshot)
    ensures Ascending(Shortened(snapshot))
  {
    hide ToDecimal;
    forall i, j | 0 <= i < j < |snapshot| ensures PriceOf(Shortened(snapshot)[i]) < PriceOf(Shortened(snapshot)[j]) {
      assert PriceOf(snapshot[i]) < PriceOf(snapshot[j]);
      ToDecimalMonotone(snapshot[i].price, snapshot[j].price);
    }
  }

  /** Cells kept apart come back all, in order, with nothing but their prices cut. */
  lemma KeptApartComesBack(cells: seq<Cell>, snapshot: seq<Cell>)
    requires Ascending(snapshot) && KeptApart(snapshot)
    requires Sorting.SortedBy(cells, PriceOf) && Offers(cells, snapshot)
    ensures cells == Shortened(snapshot)
  {
    hide Shortened;
    var short := Shortened(snapshot);
    ShortenedAscends(snapshot);
    forall i, j | 0 <= i < j < |short| ensures short[i].price != short[j].price {
      assert PriceOf(short[i]) < PriceOf(short[j]);
    }
    forall c ensures c in cells <==> c in short {
      OfferedFrom(cells, snapshot, c);
      if c in short {
        assert PriceOf(c) in Prices(cells);
        var d :| d in cells && PriceOf(d) == PriceOf(c);
        OfferedFrom(cells, snapshot, d);
        Snapshots.SamePriceSameCell(short, c, d);
      }
    }
    SortedDistinct(cells, short);
    assert Sequences.Members(cells) == Sequences.Members(short);
    Sequences.AscendingUnique(cells, short, PriceOf);
  }

  lemma OfferedFrom(cells: seq<Cell>, snapshot: seq<Cell>, c: Cell)
    requires Offers(cells, snapshot)
    ensures c in cells ==> c in Shortened(snapshot)
  {
    assert c in cells <==> c in multiset(cells);
  }

  /** Sorted cells, none more often than in a list of distinct prices, ascend strictly. */
  lemma SortedDistinct(cells: seq<Cell>, short: seq<Cell>)
    requires Snapshots.DistinctPrices(short) && Sorting.SortedBy(cells, PriceOf) && multiset(cells) <= multiset(short)
    ensures Ascending(cells)
  {
    forall i, j | 0 <= i < j < |cells| ensures PriceOf(cells[i]) < PriceOf(cells[j]) {
      assert PriceOf(cells[i]) <= PriceOf(cells[j]);
      if cells[i].price == cells[j].price {
        assert cells[i] in multiset(cells) && cells[j] in multiset(cells);
        Snapshots.SamePriceSameCell(short, cells[i], cells[j]);
        Snapshots.TwiceInSeq(cells, i, j);
        Snapshots.OnceInSeq(short, cells[i]);
      }
    }
  }

  ghost predicate OnTenths(cells: seq<Cell>) {
    forall c :: c in cells ==> c.price % TENTH == 0
  }

  /** A candle's cells come back as they were aggregated exactly when all their prices are multiples
      of 0.1. */
  lemma ComesBackIff(cells: seq<Cell>, snapshot: seq<Cell>)
    requires Ascending(snapshot) && Sorting.SortedBy(cells, PriceOf) && Offers(cells, snapshot)
    ensures cells == snapshot <==> OnTenths(snapshot)
  {
    hide ToDecimal;
    if OnTenths(snapshot) {
      forall i | 0 <= i < |snapshot| ensures Shorten(snapshot[i]) == snapshot[i] {
        assert snapshot[i] in snapshot;
        ToDecimalExactIff(snapshot[i].price);
      }
      forall i, j | 0 <= i < j < |snapshot| ensures ToDecimal(snapshot[i].price) != ToDecimal(snapshot[j].price) {
        assert PriceOf(snapshot[i]) < PriceOf(snapshot[j]);
      }
      KeptApartComesBack(cells, snapshot);
      assert Shortened(snapshot) == snapshot;
    }
    if cells == snapshot {
      forall c | c in snapshot ensures c.price % TENTH == 0 {
        StoredPriceIsTenth(cells, snapshot, c);
      }
    }
  }

  lemma StoredPriceIsTenth(cells: seq<Cell>, snapshot: seq<Cell>, c: Cell)
    requires Offers(cells, snapshot) && c in cells
    ensures c.price % TENTH == 0
  {
    hide ToDecimal;
    OfferedFrom(cells, snapshot, c);
    var short := Shortened(snapshot);
    var i :| 0 <= i < |short| && short[i] == c;
    ToDecimalExactIff(snapshot[i].price);
  }

  /** Once the table has replaced rows, a candle still has all its cells exactly when no two of them
      were stored at one price; otherwise their volume is gone. */
  lemma ReplacedKeepsAllIff(cells: seq<Cell>, snapshot: seq<Cell>)
    requires Offers(cells, snapshot) && Snapshots.DistinctPrices(cells)
    ensures |cells| == |snapshot| <==> KeptApart(snapshot)
    ensures |cells| <= |snapshot|
  {
    hide ToDecimal;
    var ps, qs := M.PricesOf(cells), M.PricesOf(Shortened(snapshot));
    PricesAsMembers(cells);
    PricesAsMembers(Shortened(snapshot));
    Sequences.MembersSize(ps);
    Sequences.MembersSize(qs);
    assert KeptApart(snapshot) <==> forall i, j :: 0 <= i < j < |qs| ==> qs[i] != qs[j];
  }

  lemma PricesAsMembers(cells: seq<Cell>)
    ensures Sequences.Members(M.PricesOf(cells)) == Prices(cells)
  {
    var ps := M.PricesOf(cells);
    forall p ensures p in Sequences.Members(ps) <==> p in Prices(cells) {
      if p in ps {
        var i :| 0 <= i < |ps| && ps[i] == p;
        assert cells[i] in cells && PriceOf(cells[i]) == p;
      }
      if p in Prices(cells) {
        var c :| c in cells && PriceOf(c) == p;
        var i :| 0 <= i < |cells| && cells[i] == c;
        assert ps[i] == p;
      }
    }
  }

  // ----- the same, from trades to candles -----

  /** Each returned candle against the trades it was aggregated from, for every answer of the table.
      Its cells are the snapshot of the trades exactly when the occupied bins lie on multiples of 0.1;
      bins kept apart come back with their volumes and shortened prices; open and close are the
      shortened prices of the lowest and highest trade ID, with the low and the high standing in when
      nothing positive is left of them. */
  lemma HistoryComesBackIff(trades: seq<Trade>, inserted: seq<H.Row>, sent: seq<H.Row>, tfs: seq<string>, tf: string,
                            size: nat, rows: seq<Q.Row>, ts: int, c: Q.Candle)
    requires size > 0 && tf in tfs && H.Aggregated(inserted, trades, tfs, size)
    requires Stored(sent, inserted) && Answers(rows, sent, tf)
    requires Q.IsCandle(c, ts, Q.RowsAt(rows, ts))
    ensures var key := H.CandleKey(ts, tf);
            var snapshot, log := H.CellsAt(inserted, key), H.LogFor(trades, key);
            && IsSnapshot(snapshot, Group(AsCells(log), size)) && log != []
            && (c.cells == snapshot <==> OnTenths(snapshot))
            && (KeptApart(snapshot) ==> c.cells == Shortened(snapshot))
            && Offers(c.cells, snapshot)
            && c.open == (if ToDecimal(log[0].price) > 0 then ToDecimal(log[0].price) else c.low)
            && c.close == (if ToDecimal(log[|log| - 1].price) > 0 then ToDecimal(log[|log| - 1].price) else c.high)
            && (log[0].price > 0 ==> (c.open == log[0].price <==> log[0].price % TENTH == 0))
            && (log[|log| - 1].price > 0 ==> (c.close == log[|log| - 1].price <==> log[|log| - 1].price % TENTH == 0))
  {
    hide Group, IsSnapshot, H.LogFor, H.CellsAt, Q.RowsAt, ToDecimal, Offers, Answers, OnTenths, KeptApart, Stored;
    var key, mine := H.CandleKey(ts, tf), Q.RowsAt(rows, ts);
    var snapshot := H.CellsAt(inserted, key);
    SnapshotFacts(snapshot, Group(AsCells(H.LogFor(trades, key)), size));
    AnswerOffers(rows, sent, inserted, tf, ts);
    OffersAnyOrder(c.cells, Q.CellsOf(mine), snapshot);
    ComesBackIff(c.cells, snapshot);
    if KeptApart(snapshot) {
      KeptApartComesBack(c.cells, snapshot);
    }
    var first := FirstRow(rows, sent, inserted, tf, ts);
    RangeIsOnTenths(c, ts, mine, snapshot);
    if first.open > 0 {
      OpenComesBackIff(first.open, c.low);
    }
    if first.close > 0 {
      OpenComesBackIff(first.close, c.high);
    }
  }

  lemma SnapshotFacts(snapshot: seq<Cell>, m: map<Price, Cell>)
    requires IsSnapshot(snapshot, m)
    ensures Ascending(snapshot) && M.InTenths(snapshot)
  {
    M.SnapshotInTenths(snapshot, m);
  }

  lemma OffersAnyOrder(a: seq<Cell>, b: seq<Cell>, snapshot: seq<Cell>)
    requires multiset(a) == multiset(b) && Offers(b, snapshot)
    ensures Offers(a, snapshot)
  {
    Sequences.MembersOfPermutation(a, b);
    assert Prices(a) == Prices(b);
  }

  lemma FirstRow(rows: seq<Q.Row>, sent: seq<H.Row>, inserted: seq<H.Row>, tf: string, ts: int) returns (row: H.Row)
    requires Stored(sent, inserted) && Answers(rows, sent, tf) && Q.RowsAt(rows, ts) != []
    ensures row in inserted && row.key == H.CandleKey(ts, tf)
    ensures Q.RowsAt(rows, ts)[0].openPrice == ToDecimal(row.open)
    ensures Q.RowsAt(rows, ts)[0].closePrice == ToDecimal(row.close)
  {
    hide ToDecimal, Q.RowsAt;
    var q := Q.RowsAt(rows, ts)[0];
    RowsAtMembers(rows, ts, q);
    assert q in multiset(rows);
    assert q in multiset(Selected(sent, tf));
    var r := SelectedMembers(sent, tf, q);
    var i :| 0 <= i < |sent| && sent[i] == r;
    row := inserted[i];
  }

  lemma OpenComesBackIff(open: Price, standIn: Price)
    requires open > 0 && standIn % TENTH == 0
    ensures (if ToDecimal(open) > 0 then ToDecimal(open) else standIn) == open <==> open % TENTH == 0
  {
  }

  lemma RangeIsOnTenths(c: Q.Candle, ts: int, mine: seq<Q.Row>, snapshot: seq<Cell>)
    requires Q.IsCandle(c, ts, mine) && Offers(Q.CellsOf(mine), snapshot)
    ensures c.low % TENTH == 0 && c.high % TENTH == 0
  {
    hide Offers;
    var lowest :| lowest in mine && lowest.price == c.low;
    var highest :| highest in mine && highest.price == c.high;
    RowIsOnTenth(mine, lowest, snapshot);
    RowIsOnTenth(mine, highest, snapshot);
  }

  lemma RowIsOnTenth(mine: seq<Q.Row>, r: Q.Row, snapshot: seq<Cell>)
    requires r in mine && Offers(Q.CellsOf(mine), snapshot)
    ensures r.price % TENTH == 0
  {
    var i :| 0 <= i < |mine| && mine[i] == r;
    var c := Q.CellsOf(mine)[i];
    assert c in Q.CellsOf(mine);
    StoredPriceIsTenth(Q.CellsOf(mine), snapshot, c);
  }

  // ----- rows that were replaced -----

  lemma {:induction false} ReplacedAtOneTime(rows: seq<Q.Row>, ts: int)
    requires Replaced(rows)
    ensures Snapshots.DistinctPrices(Q.CellsOf(Q.RowsAt(rows, ts)))
  {
    if rows != [] {
      var init, r := rows[..|rows| - 1], rows[|rows| - 1];
      var rest := Q.RowsAt(init, ts);
      ReplacedAtOneTime(init, ts);
      forall i | 0 <= i < |rest| && r.ts == ts ensures Q.CellsOf(rest)[i].price != r.price {
        RowsAtMembers(init, ts, rest[i]);
        var j :| 0 <= j < |init| && init[j] == rest[i];
        assert rows[j].ts != rows[|rows| - 1].ts || rows[j].price != rows[|rows| - 1].price;
      }
    }
  }

  /** After replacing, a candle has kept all its cells exactly when no two were stored at one price. */
  lemma ReplacedCandleKeepsAllIff(rows: seq<Q.Row>, ts: int, c: Q.Candle, snapshot: seq<Cell>)
    requires Replaced(rows) && Q.IsCandle(c, ts, Q.RowsAt(rows, ts)) && Offers(c.cells, snapshot)
    ensures |c.cells| == |snapshot| <==> KeptApart(snapshot)
  {
    hide Q.RowsAt, Offers;
    ReplacedAtOneTime(rows, ts);
    SortedDistinct(c.cells, Q.CellsOf(Q.RowsAt(rows, ts)));
    forall i, j | 0 <= i < j < |c.cells| ensures c.cells[i].price != c.cells[j].price {
      assert PriceOf(c.cells[i]) < PriceOf(c.cells[j]);
    }
    ReplacedKeepsAllIff(c.cells, snapshot);
  }

  // ----- which bin widths are safe -----

  /** Bins at least 0.1 wide are kept apart, in every candle. */
  lemma WideBinsAreKeptApart(cs: seq<Cell>, size: nat, snapshot: seq<Cell>)
    requires size >= TENTH && IsSnapshot(snapshot, Group(cs, size))
    ensures KeptApart(snapshot)
  {
    hide ToDecimal;
    M.SnapshotAsBase(cs, size, snapshot);
    forall i, j | 0 <= i < j < |snapshot| ensures ToDecimal(snapshot[i].price) != ToDecimal(snapshot[j].price) {
      assert PriceOf(snapshot[i]) < PriceOf(snapshot[j]);
      var k, l := BinIndex(snapshot[i].price, size), BinIndex(snapshot[j].price, size);
      OrderedIndices(k, l, size);
      WideBinsStayApart(k, l, size);
    }
  }

  lemma OrderedIndices(k: int, l: int, size: nat)
    requires size > 0 && k * size < l * size
    ensures k < l
  {
    if l <= k {
      MulMonotone(l, k, size);
    }
  }

  /** For every narrower width two neighbouring bins are not, in any candle that occupies both. */
  lemma NarrowBinsAreNotKeptApart(size: nat) returns (low: Price)
    requires 0 < size < TENTH
    ensures Bin(low, size) == low && Bin(low + size, size) == low + size
    ensures forall snapshot :: low in Prices(snapshot) && low + size in Prices(snapshot) ==> !KeptApart(snapshot)
  {
    hide ToDecimal;
    var i := NarrowBinsMeet(size);
    low := i * size;
    IndexOfMultiple(i, size);
    IndexOfMultiple(i + 1, size);
    assert (i + 1) * size == low + size;
    forall snapshot | low in Prices(snapshot) && low + size in Prices(snapshot) ensures !KeptApart(snapshot) {
      TwoAtOnePrice(snapshot, low, low + size);
    }
  }

  lemma TwoAtOnePrice(snapshot: seq<Cell>, p: Price, q: Price)
    requires p != q && ToDecimal(p) == ToDecimal(q) && p in Prices(snapshot) && q in Prices(snapshot)
    ensures !KeptApart(snapshot)
  {
    hide ToDecimal;
    var c :| c in snapshot && PriceOf(c) == p;
    var d :| d in snapshot && PriceOf(d) == q;
    var i :| 0 <= i < |snapshot| && snapshot[i] == c;
    var j :| 0 <= j < |snapshot| && snapshot[j] == d;
    if i < j {
      assert ToDecimal(snapshot[i].price) == ToDecimal(snapshot[j].price);
    } else {
      assert ToDecimal(snapshot[j].price) == ToDecimal(snapshot[i].price);
    }
  }

  // ----- no candle is lost -----

  /** The candle of every trade is among those returned, whatever the table answers. */
  lemma EveryTradeHasItsCandle(trades: seq<Trade>, inserted: seq<H.Row>, sent: seq<H.Row>, tfs: seq<string>, tf: string,
                               size: nat, rows: seq<Q.Row>, t: Trade)
    requires size > 0 && tf in tfs && H.Aggregated(inserted, trades, tfs, size) && AscendingIds(trades) && t in trades
    requires Stored(sent, inserted) && Answers(rows, sent, tf)
    ensures Timeframes.CandleTimeUnix(t.timeMs, tf) in Q.Times(rows)
  {
    hide Group, H.LogFor, H.CellsAt, Q.RowsAt, Timeframes.CandleTimeUnix, ToDecimal, Stored, Answers, Shortened;
    var ts := Timeframes.CandleTimeUnix(t.timeMs, tf);
    var key := H.CandleKey(ts, tf);
    var snapshot := H.CellsAt(inserted, key);
    var mine := Q.RowsAt(rows, ts);
    H.OpenAndCloseAreExtremeIds(trades, key, t);
    OccupiedBin(H.LogFor(trades, key), t, size);
    SnapshotFacts(snapshot, Group(AsCells(H.LogFor(trades, key)), size));
    assert Bin(t.price, size) in Prices(snapshot);
    AnswerOffers(rows, sent, inserted, tf, ts);
    NotEmptied(Q.CellsOf(mine), snapshot);
    Q.TimesAreDistinct(rows);
    RowsAtMembers(rows, ts, mine[0]);
  }

  lemma NotEmptied(cells: seq<Cell>, snapshot: seq<Cell>)
    requires Offers(cells, snapshot) && snapshot != []
    ensures cells != []
  {
    var short := Shortened(snapshot);
    assert short[0] in short && PriceOf(short[0]) in Prices(short);
  }

  lemma OccupiedBin(log: seq<Trade>, t: Trade, size: nat)
    requires size > 0 && t in log
    ensures Bin(t.price, size) in Group(AsCells(log), size)
  {
    var i :| 0 <= i < |log| && log[i] == t;
    var c := AsCells(log)[i];
    assert c in AsCells(log) && c.price == t.price;
  }
}
