// backend/internal/history/pipeline.go: sorting and deduplicating a day of trades, and aggregating it
// into one aggregator per candle and timeframe.

module History {
  import opened Binning
  import Decimals
  import opened Cells
  import opened Trades
  import opened Timeframes
  import opened Aggregation
  import opened StreamIngest

  // ----- parseCSV: sort by trade ID, drop neighbours with equal IDs -----

  method Dedup(trades: seq<Trade>) returns (result: seq<Trade>)
    requires Sorting.SortedBy(trades, IdOf)
    ensures AscendingIds(result) && Ids(result) == Ids(trades)
    ensures forall t :: t in result ==> t in trades
  {
    if trades == [] {
      return trades;
    }
    hide Selects;
    result := [trades[0]];
    SelectsFirst(trades[0]);
    assert trades[..1] == [trades[0]];
    for i := 1 to |trades|
      invariant Selects(result, trades[..i])
    {
      assert trades[..i + 1] == trades[..i] + [trades[i]];
      assert IdOf(trades[i - 1]) <= IdOf(trades[i]);
      SelectsNext(result, trades[..i], trades[i]);
      if trades[i].id != trades[i - 1].id {
        result := result + [trades[i]];
      }
    }
    assert trades[..|trades|] == trades;
    SelectsAll(result, trades);
  }

  /** One trade per ID of a sorted prefix, up to and including its last. */
  ghost predicate Selects(result: seq<Trade>, prefix: seq<Trade>) {
    && result != [] && prefix != [] && result[|result| - 1].id == prefix[|prefix| - 1].id
    && AscendingIds(result) && Ids(result) == Ids(prefix)
    && forall t :: t in result ==> t in prefix
  }

  lemma SelectsFirst(t: Trade)
    ensures Selects([t], [t])
  {
  }

  lemma SelectsAll(result: seq<Trade>, prefix: seq<Trade>)
    requires Selects(result, prefix)
    ensures AscendingIds(result) && Ids(result) == Ids(prefix) && forall t :: t in result ==> t in prefix
  {
  }

  lemma SelectsNext(result: seq<Trade>, prefix: seq<Trade>, t: Trade)
    requires prefix != [] && Selects(result, prefix) && prefix[|prefix| - 1].id <= t.id
    ensures Selects(if t.id != prefix[|prefix| - 1].id then result + [t] else result, prefix + [t])
  {
    hide MaxId, Ids, AscendingIds, AsCells;
    IdsAppend(prefix, t);
    if t.id != prefix[|prefix| - 1].id {
      AppendAscending(result, t);
      IdsAppend(result, t);
    } else {
      IdOfMember(prefix, |prefix| - 1);
    }
  }

  lemma AppendAscending(ts: seq<Trade>, t: Trade)
    requires AscendingIds(ts) && ts != [] && ts[|ts| - 1].id < t.id
    ensures AscendingIds(ts + [t])
  {
  }

  lemma IdOfMember(ts: seq<Trade>, i: nat)
    requires i < |ts|
    ensures Ids(ts) + {ts[i].id} == Ids(ts)
  {
    assert ts[i] in ts;
  }

  method SortedTrades(trades: seq<Trade>) returns (result: seq<Trade>)
    ensures AscendingIds(result) && Ids(result) == Ids(trades)
    ensures forall t :: t in result ==> t in trades
  {
    var sorted := Sorting.Sort(trades, IdOf);
    Sequences.MembersOfPermutation(sorted, trades);
    SameIds(sorted, trades);
    result := Dedup(sorted);
  }

  // ----- which trades each aggregator stands for -----

  datatype CandleKey = CandleKey(candleTime: int, tf: string)

  function KeyOf(t: Trade, tf: string): CandleKey {
    CandleKey(CandleTimeUnix(t.timeMs, tf), tf)
  }

  type Logs = map<CandleKey, seq<Trade>>

  /** One trade into the aggregator of its candle, which is created on demand. */
  ghost function Feed(logs: Logs, key: CandleKey, t: Trade): Logs {
    logs[key := Kept(if key in logs then logs[key] else [], [t])]
  }

  ghost function FeedTfs(logs: Logs, t: Trade, tfs: seq<string>): Logs {
    if tfs == [] then logs
    else Feed(FeedTfs(logs, t, tfs[..|tfs| - 1]), KeyOf(t, tfs[|tfs| - 1]), t)
  }

  ghost function FeedAll(trades: seq<Trade>, tfs: seq<string>): Logs {
    if trades == [] then map[]
    else FeedTfs(FeedAll(trades[..|trades| - 1], tfs), trades[|trades| - 1], tfs)
  }

  /** The trades of one candle, duplicates removed. */
  function LogFor(trades: seq<Trade>, key: CandleKey): seq<Trade> {
    Kept([], InCandle(trades, key.tf, key.candleTime))
  }

  lemma KeptTwice(log: seq<Trade>, t: Trade)
    ensures t.id in Ids(Kept(log, [t]))
    ensures t.id in Ids(log) ==> Kept(log, [t]) == log
    ensures Kept(log, [t]) != []
  {
    hide MaxId, AsCells;
    KeptOne(log, t);
    IdsAppend(log, t);
  }

  /** Feeding a trade to all timeframes touches exactly the candles it belongs to, and a timeframe
      listed twice changes nothing more. */
  lemma {:induction false} FeedTfsLogs(logs: Logs, t: Trade, tfs: seq<string>, key: CandleKey)
    ensures key in FeedTfs(logs, t, tfs) <==> key in logs || (key.tf in tfs && key == KeyOf(t, key.tf))
    ensures key in FeedTfs(logs, t, tfs) ==>
      FeedTfs(logs, t, tfs)[key] == (if key.tf in tfs && key == KeyOf(t, key.tf)
                                     then Kept(if key in logs then logs[key] else [], [t]) else logs[key])
  {
    hide KeyOf, Kept, Ids;
    KeyTf(t);
    if tfs != [] {
      var init, tf := tfs[..|tfs| - 1], tfs[|tfs| - 1];
      assert tfs == init + [tf];
      FeedTfsLogs(logs, t, init, key);
      KeptTwice(if key in logs then logs[key] else [], t);
      if key.tf in init && key == KeyOf(t, key.tf) {
        KeptTwice(Kept(if key in logs then logs[key] else [], [t]), t);
      }
    }
  }

  lemma KeyTf(t: Trade)
    ensures forall tf :: KeyOf(t, tf).tf == tf
  {
  }

  lemma {:induction false} FeedAllLogs(trades: seq<Trade>, tfs: seq<string>, key: CandleKey)
    ensures key in FeedAll(trades, tfs) <==> key.tf in tfs && InCandle(trades, key.tf, key.candleTime) != []
    ensures key in FeedAll(trades, tfs) ==> FeedAll(trades, tfs)[key] == LogFor(trades, key)
  {
    hide CandleTimeUnix, FeedTfs, Kept;
    if trades != [] {
      var init, t := trades[..|trades| - 1], trades[|trades| - 1];
      assert trades == init + [t];
      FeedAllLogs(init, tfs, key);
      FeedTfsLogs(FeedAll(init, tfs), t, tfs, key);
      InCandleAppend(init, t, key.tf, key.candleTime);
      var sel := InCandle(init, key.tf, key.candleTime);
      assert sel + [] == sel;
      KeptMore([], sel, t);
      assert KeyOf(t, key.tf) == CandleKey(CandleTimeUnix(t.timeMs, key.tf), key.tf);
    }
  }

  lemma KeptMore(log: seq<Trade>, arrivals: seq<Trade>, t: Trade)
    ensures Kept(log, arrivals + [t]) == Kept(Kept(log, arrivals), [t])
    ensures Kept(log, []) == log
  {
    hide Ids;
    KeptAppend(log, arrivals, t);
    KeptOne(Kept(log, arrivals), t);
  }

  // ----- aggregateAndInsert -----

  type Table = map<CandleKey, Aggregator>

  ghost predicate SoundAt(agg: Aggregator, tickSize: nat, comp: nat)
    reads agg
  {
    agg.Valid() && agg.neverFlushed && agg.tickSize == tickSize && agg.comp == comp
  }

  ghost predicate Sound(table: Table, tickSize: nat, comp: nat)
    reads table.Values
  {
    && (forall k :: k in table ==> SoundAt(table[k], tickSize, comp))
    && (forall k, l :: k in table && l in table && k != l ==> table[k] != table[l])
  }

  ghost function LogsOf(table: Table): Logs
    reads table.Values
  {
    map k | k in table :: table[k].log
  }

  /** The aggregator of a candle, created when it is missing. */
  method AggregatorFor(table: Table, key: CandleKey, tickSize: nat, comp: nat) returns (table': Table, agg: Aggregator)
    requires tickSize > 0 && comp > 0 && Sound(table, tickSize, comp)
    ensures Sound(table', tickSize, comp)
    ensures key in table' && table'[key] == agg
    ensures if key in table then table' == table else fresh(agg) && agg.log == [] && table' == table[key := agg]
  {
    hide Aggregator.Valid;
    if key in table {
      agg, table' := table[key], table;
    } else {
      agg := new Aggregator(tickSize, comp);
      table' := table[key := agg];
    }
  }

  /** Process one trade in one timeframe. */
  method Add(table: Table, t: Trade, tf: string, tickSize: nat, comp: nat) returns (table': Table)
    requires tickSize > 0 && comp > 0 && Sound(table, tickSize, comp)
    modifies table.Values
    ensures fresh(table'.Values - table.Values)
    ensures Sound(table', tickSize, comp)
    ensures LogsOf(table') == Feed(old(LogsOf(table)), KeyOf(t, tf), t)
  {
    hide Sound, SoundAt, Kept, Ids, KeyOf, Feed;
    var key := KeyOf(t, tf);
    ghost var logs := LogsOf(table);
    var agg;
    table', agg := AggregatorFor(table, key, tickSize, comp);
    assert key in table ==> agg in table.Values;
    TakeTrade(table', key, t, tickSize, comp);
    assert forall k :: k in table && k != key ==> LogsOf(table')[k] == logs[k];
    FeedIs(logs, LogsOf(table'), key, t);
  }

  /** One aggregator of the table takes the trade; the others are left alone. */
  method TakeTrade(table: Table, key: CandleKey, t: Trade, tickSize: nat, comp: nat)
    requires tickSize > 0 && comp > 0 && Sound(table, tickSize, comp) && key in table
    modifies table[key]
    ensures Sound(table, tickSize, comp)
    ensures table[key].log == Kept(old(table[key].log), [t])
    ensures forall k :: k in table && k != key ==> table[k].log == old(table[k].log)
  {
    hide SoundAt, Kept, Ids;
    KeptOne(table[key].log, t);
    TakeSound(table[key], t, tickSize, comp);
  }

  method TakeSound(agg: Aggregator, t: Trade, tickSize: nat, comp: nat)
    requires tickSize > 0 && comp > 0 && SoundAt(agg, tickSize, comp)
    modifies agg
    ensures SoundAt(agg, tickSize, comp)
    ensures agg.log == if t.id in Ids(old(agg.log)) then old(agg.log) else old(agg.log) + [t]
  {
    hide Aggregator.Valid, Ids;
    var _, _, _ := agg.ProcessTrade(t);
  }

  lemma FeedIs(logs: Logs, logs': Logs, key: CandleKey, t: Trade)
    requires logs'.Keys == logs.Keys + {key}
    requires forall k :: k in logs && k != key ==> logs'[k] == logs[k]
    requires logs'[key] == Kept(if key in logs then logs[key] else [], [t])
    ensures logs' == Feed(logs, key, t)
  {
  }

  method BuildTable(trades: seq<Trade>, tfs: seq<string>, tickSize: nat, comp: nat) returns (table: Table)
    requires tickSize > 0 && comp > 0
    ensures fresh(table.Values) && Sound(table, tickSize, comp)
    ensures LogsOf(table) == FeedAll(trades, tfs)
  {
    hide Sound, Feed, KeyOf;
    table := map[];
    NothingYet(table, tfs, tickSize, comp);
    for i := 0 to |trades|
      invariant fresh(table.Values) && Sound(table, tickSize, comp)
      invariant LogsOf(table) == FeedAll(trades[..i], tfs)
    {
      ghost var before := LogsOf(table);
      NoTfs(before, trades[i]);
      for j := 0 to |tfs|
        invariant fresh(table.Values) && Sound(table, tickSize, comp)
        invariant LogsOf(table) == FeedTfs(before, trades[i], tfs[..j])
      {
        FeedTfsStep(before, trades[i], tfs, j);
        table := Add(table, trades[i], tfs[j], tickSize, comp);
      }
      assert tfs[..|tfs|] == tfs;
      FeedAllStep(trades, i, tfs);
    }
    assert trades[..|trades|] == trades;
  }

  lemma NothingYet(table: Table, tfs: seq<string>, tickSize: nat, comp: nat)
    requires table == map[]
    ensures Sound(table, tickSize, comp) && LogsOf(table) == FeedAll([], tfs)
  {
  }

  lemma NoTfs(logs: Logs, t: Trade)
    ensures FeedTfs(logs, t, []) == logs
  {
  }

  lemma FeedTfsStep(logs: Logs, t: Trade, tfs: seq<string>, j: nat)
    requires j < |tfs|
    ensures FeedTfs(logs, t, tfs[..j + 1]) == Feed(FeedTfs(logs, t, tfs[..j]), KeyOf(t, tfs[j]), t)
  {
    assert tfs[..j + 1][..j] == tfs[..j];
  }

  lemma FeedAllStep(trades: seq<Trade>, i: nat, tfs: seq<string>)
    requires i < |trades|
    ensures FeedAll(trades[..i + 1], tfs) == FeedTfs(FeedAll(trades[..i], tfs), trades[i], tfs)
  {
    assert trades[..i + 1][..i] == trades[..i];
  }

  /** A row for the store: a cell of a candle with the candle's open and close. */
  datatype Row = Row(key: CandleKey, cell: Cell, open: Price, close: Price)

  function CellsAt(rows: seq<Row>, key: CandleKey): seq<Cell> {
    if rows == [] then []
    else CellsAt(rows[..|rows| - 1], key) + if rows[|rows| - 1].key == key then [rows[|rows| - 1].cell] else []
  }

  lemma NoRows()
    ensures forall k :: CellsAt([], k) == []
  {
  }

  lemma CellsAtAppend(rows: seq<Row>, row: Row, key: CandleKey)
    ensures CellsAt(rows + [row], key) == CellsAt(rows, key) + if row.key == key then [row.cell] else []
  {
    assert (rows + [row])[..|rows + [row]| - 1] == rows;
  }

  method AppendRows(rows: seq<Row>, key: CandleKey, cells: seq<Cell>, open: Price, close: Price)
    returns (rows': seq<Row>)
    ensures forall k :: CellsAt(rows', k) == if k == key then CellsAt(rows, k) + cells else CellsAt(rows, k)
    ensures forall row :: row in rows' ==>
              row in rows || (cells != [] && row.key == key && row.open == open && row.close == close)
  {
    rows' := rows;
    for i := 0 to |cells|
      invariant forall k :: CellsAt(rows', k) == CellsAt(rows, k) + if k == key then cells[..i] else []
      invariant forall row :: row in rows' ==>
                  row in rows || (i > 0 && row.key == key && row.open == open && row.close == close)
    {
      ghost var before := rows';
      var row := Row(key, cells[i], open, close);
      forall k ensures CellsAt(before + [row], k) == CellsAt(rows, k) + if k == key then cells[..i + 1] else [] {
        CellsAtAppend(before, row, k);
        assert cells[..i + 1] == cells[..i] + [cells[i]];
      }
      rows' := rows' + [row];
    }
    assert cells[..|cells|] == cells;
    assert forall k :: CellsAt(rows, k) + [] == CellsAt(rows, k);
  }

  ghost predicate RowFrom(row: Row, logs: Logs) {
    row.key in logs && OpensAndCloses(row, logs[row.key])
  }

  ghost predicate OpensAndCloses(row: Row, log: seq<Trade>) {
    log != [] && row.open == log[0].price && row.close == log[|log| - 1].price
  }

  method CollectRows(table: Table, tickSize: nat, comp: nat) returns (rows: seq<Row>)
    requires tickSize > 0 && comp > 0 && Sound(table, tickSize, comp)
    modifies table.Values
    ensures forall k :: k in table ==>
      IsSnapshot(CellsAt(rows, k), Group(AsCells(old(LogsOf(table))[k]), BinSize(tickSize, comp)))
    ensures forall row :: row in rows ==> RowFrom(row, old(LogsOf(table)))
    ensures forall k :: k !in table ==> CellsAt(rows, k) == []
  {
    hide SoundAt, BinSize, Group, IsSnapshot, AsCells, CellsAt, RowFrom;
    rows := [];
    NoRows();
    ghost var logs := LogsOf(table);
    var todo := table.Keys;
    while todo != {}
      invariant todo <= table.Keys
      invariant forall k :: k in todo ==> SoundAt(table[k], tickSize, comp) && table[k].log == logs[k]
      invariant forall k :: k in table && k !in todo ==>
        IsSnapshot(CellsAt(rows, k), Group(AsCells(logs[k]), BinSize(tickSize, comp)))
      invariant forall k :: k !in table || k in todo ==> CellsAt(rows, k) == []
      invariant forall row :: row in rows ==> RowFrom(row, logs)
      decreases todo
    {
      var key :| key in todo;
      var agg := table[key];
      rows := CollectCandle(agg, key, rows, tickSize, comp, logs);
      todo := todo - {key};
    }
  }

  /** The rows of one candle, appended to those of others. */
  method CollectCandle(agg: Aggregator, key: CandleKey, rows: seq<Row>, tickSize: nat, comp: nat, ghost logs: Logs)
    returns (rows': seq<Row>)
    requires tickSize > 0 && comp > 0 && SoundAt(agg, tickSize, comp) && key in logs && logs[key] == agg.log
    requires CellsAt(rows, key) == [] && forall row :: row in rows ==> RowFrom(row, logs)
    modifies agg
    ensures IsSnapshot(CellsAt(rows', key), Group(AsCells(logs[key]), BinSize(tickSize, comp)))
    ensures forall k :: k != key ==> CellsAt(rows', k) == CellsAt(rows, k)
    ensures forall row :: row in rows' ==> RowFrom(row, logs)
  {
    hide SoundAt, BinSize, Group, IsSnapshot, AsCells, CellsAt, RowFrom;
    var cells, openPrice, closePrice := FlushCandle(agg, tickSize, comp);
    rows' := AppendRows(rows, key, cells, openPrice, closePrice);
    assert [] + cells == cells;
    RowsFrom(rows, rows', key, cells, openPrice, closePrice, logs);
  }

  lemma RowsFrom(before: seq<Row>, rows: seq<Row>, key: CandleKey, cells: seq<Cell>, open: Price, close: Price,
                 logs: Logs)
    requires forall row :: row in before ==> RowFrom(row, logs)
    requires forall row :: row in rows ==>
               row in before || (cells != [] && row.key == key && row.open == open && row.close == close)
    requires key in logs
    requires cells != [] ==> logs[key] != [] && open == logs[key][0].price && close == logs[key][|logs[key]| - 1].price
    ensures forall row :: row in rows ==> RowFrom(row, logs)
  {
  }

  method FlushCandle(agg: Aggregator, tickSize: nat, comp: nat)
    returns (cells: seq<Cell>, openPrice: Price, closePrice: Price)
    requires tickSize > 0 && comp > 0 && SoundAt(agg, tickSize, comp)
    modifies agg
    ensures IsSnapshot(cells, Group(AsCells(old(agg.log)), BinSize(tickSize, comp)))
    ensures cells != [] ==> old(agg.log) != [] && openPrice == old(agg.log)[0].price
                            && closePrice == old(agg.log)[|old(agg.log)| - 1].price
  {
    hide Accounts, BinSize, Group, IsSnapshot;
    ghost var log := agg.log;
    cells := agg.Flush();
    openPrice := agg.OpenPrice();
    closePrice := agg.ClosePrice();
    NonemptyLog(cells, log, BinSize(tickSize, comp));
  }

  lemma NonemptyLog(cells: seq<Cell>, log: seq<Trade>, size: nat)
    requires size > 0 && IsSnapshot(cells, Group(AsCells(log), size))
    ensures cells != [] ==> log != []
  {
    if cells != [] {
      assert cells[0] in cells && PriceOf(cells[0]) in Group(AsCells(log), size);
    }
  }

  function StoredCell(c: Cell): Cell {
    Cell(Decimals.ToDecimal(c.price), Rounding.RoundTenth(c.bid), Rounding.RoundTenth(c.ask))
  }

  /** A row as the decimal columns of the store hold it. */
  function AsStored(row: Row): Row {
    Row(row.key, StoredCell(row.cell),
        Decimals.ToDecimal(row.open), Decimals.ToDecimal(row.close))
  }

  /** clickhouse.go, BatchInsert: the rows as they are sent, every number cut to one decimal. */
  method BatchInsert(rows: seq<Row>) returns (sent: seq<Row>)
    ensures |sent| == |rows| && forall i :: 0 <= i < |rows| ==> sent[i] == AsStored(rows[i])
  {
    sent := [];
    if |rows| == 0 {
      return;
    }
    for i := 0 to |rows|
      invariant |sent| == i && forall k :: 0 <= k < i ==> sent[k] == AsStored(rows[k])
    {
      var r := rows[i];
      sent := sent + [Row(r.key, StoredCell(r.cell),
                          Decimals.ToDecimal(r.open), Decimals.ToDecimal(r.close))];
    }
  }

  /** What the aggregation of these trades leaves for the store, before decimal columns. */
  ghost predicate Aggregated(rows: seq<Row>, trades: seq<Trade>, tfs: seq<string>, size: nat)
    requires size > 0
  {
    && (forall key: CandleKey :: key.tf in tfs ==>
          IsSnapshot(CellsAt(rows, key), Group(AsCells(LogFor(trades, key)), size)))
    && (forall row :: row in rows ==> row.key.tf in tfs && OpensAndCloses(row, LogFor(trades, row.key)))
  }

  /** The rows of every candle of every requested timeframe are the snapshot of that candle's trades,
      with open and close the prices of its first and last kept trade; each is sent cut to one decimal. */
  method AggregateAndInsert(trades: seq<Trade>, tfs: seq<string>, tickSize: nat, comp: nat)
    returns (totalCells: nat, sent: seq<Row>, ghost rows: seq<Row>)
    requires tickSize > 0 && comp > 0
    ensures Aggregated(rows, trades, tfs, BinSize(tickSize, comp))
    ensures totalCells == |sent| == |rows| && forall i :: 0 <= i < |rows| ==> sent[i] == AsStored(rows[i])
  {
    hide Sound, Aggregated, IsSnapshot, Group, AsCells, CellsAt, FeedAll, RowFrom, AsStored, BinSize;
    var table := BuildTable(trades, tfs, tickSize, comp);
    ghost var logs := LogsOf(table);
    var allRows := CollectRows(table, tickSize, comp);
    AggregatedFrom(allRows, trades, tfs, logs, BinSize(tickSize, comp));
    rows := allRows;
    totalCells := |allRows|;
    sent := BatchInsert(allRows);
  }

  lemma AggregatedFrom(rows: seq<Row>, trades: seq<Trade>, tfs: seq<string>, logs: Logs, size: nat)
    requires size > 0 && logs == FeedAll(trades, tfs)
    requires forall k :: k in logs ==> IsSnapshot(CellsAt(rows, k), Group(AsCells(logs[k]), size))
    requires forall row :: row in rows ==> RowFrom(row, logs)
    requires forall k :: k !in logs ==> CellsAt(rows, k) == []
    ensures Aggregated(rows, trades, tfs, size)
  {
    hide Group, IsSnapshot, CellsAt, FeedAll, LogFor, InCandle, OpensAndCloses, AsCells;
    forall key: CandleKey | key.tf in tfs
      ensures IsSnapshot(CellsAt(rows, key), Group(AsCells(LogFor(trades, key)), size))
    {
      FeedAllLogs(trades, tfs, key);
      NoTradesNoCells(trades, key, size);
    }
    forall row | row in rows ensures row.key.tf in tfs && OpensAndCloses(row, LogFor(trades, row.key)) {
      FeedAllLogs(trades, tfs, row.key);
    }
  }

  /** The rows of a candle of a known timeframe come from the trades of its interval: its start is a
      multiple of the width, a trade from 1970 on is in its log's selection exactly when its second lies in
      the interval. */
  lemma RowsHoldTheirInterval(rows: seq<Row>, trades: seq<Trade>, tfs: seq<string>, size: nat, row: Row, width: nat,
                              t: Trade)
    requires size > 0 && Aggregated(rows, trades, tfs, size) && row in rows && IsWidth(row.key.tf, width)
    requires t in trades && t.timeMs >= 0 && width > 0
    ensures row.key.candleTime % width == 0
    ensures t in InCandle(trades, row.key.tf, row.key.candleTime)
            <==> row.key.candleTime <= t.timeMs / 1000 < row.key.candleTime + width
  {
    hide CandleTimeUnix, IsSnapshot, Group, Kept;
    var key := row.key;
    var log := LogFor(trades, key);
    var u := log[0];
    KeptNothingIds();
    KeptIds([], InCandle(trades, key.tf, key.candleTime));
    InCandleMembers(trades, key.tf, key.candleTime, u);
    InCandleMembers(trades, key.tf, key.candleTime, t);
    CandleHolds(u.timeMs, key.tf, width);
    CandleIsInterval(t.timeMs, key.tf, width, key.candleTime);
  }

  lemma KeptNothingIds()
    ensures DistinctIds([])
  {
  }

  lemma NoTradesNoCells(trades: seq<Trade>, key: CandleKey, size: nat)
    requires size > 0
    ensures InCandle(trades, key.tf, key.candleTime) == [] ==> IsSnapshot([], Group(AsCells(LogFor(trades, key)), size))
  {
  }

  // ----- open, close, and agreement with the live path -----

  lemma {:induction false} InCandleAscends(trades: seq<Trade>, tf: string, candleTime: int)
    requires AscendingIds(trades)
    ensures AscendingIds(InCandle(trades, tf, candleTime))
  {
    hide CandleTimeUnix;
    if trades != [] {
      var init, t := trades[..|trades| - 1], trades[|trades| - 1];
      InCandleAscends(init, tf, candleTime);
      var sel := InCandle(init, tf, candleTime);
      forall u | u in sel ensures u.id < t.id {
        InCandleMembers(init, tf, candleTime, u);
        var i :| 0 <= i < |init| && init[i] == u;
        assert trades[i].id < trades[|trades| - 1].id;
      }
    }
  }

  lemma {:induction false} AscendingKeepsAll(ts: seq<Trade>)
    requires AscendingIds(ts)
    ensures Kept([], ts) == ts
  {
    if ts != [] {
      var init, t := ts[..|ts| - 1], ts[|ts| - 1];
      assert ts == init + [t];
      LastIdIsNew(init, t);
      AscendingKeepsAll(init);
      hide Ids, Kept;
      KeptAppend([], init, t);
    }
  }

  lemma LastIdIsNew(init: seq<Trade>, t: Trade)
    requires AscendingIds(init + [t])
    ensures t.id !in Ids(init) && AscendingIds(init)
  {
    forall u | u in init ensures u.id != t.id {
      var i :| 0 <= i < |init| && init[i] == u;
      assert (init + [t])[i].id < (init + [t])[|init|].id;
    }
    assert init == (init + [t])[..|init|];
  }

  lemma AscendingIsDistinct(ts: seq<Trade>)
    requires AscendingIds(ts)
    ensures DistinctIds(ts)
  {
  }

  /** On sorted input the first and last kept trade of a candle have its lowest and highest ID. */
  lemma OpenAndCloseAreExtremeIds(trades: seq<Trade>, key: CandleKey, t: Trade)
    requires AscendingIds(trades) && t in trades && KeyOf(t, key.tf) == key
    ensures var log := LogFor(trades, key);
            t in log && log[0].id <= t.id <= log[|log| - 1].id
  {
    hide CandleTimeUnix;
    InCandleAscends(trades, key.tf, key.candleTime);
    AscendingKeepsAll(InCandle(trades, key.tf, key.candleTime));
    InCandleMembers(trades, key.tf, key.candleTime, t);
    var log := LogFor(trades, key);
    var i :| 0 <= i < |log| && log[i] == t;
  }

  /** For one candle, any arrival order with any duplicates gives the live aggregator the same cells
      as the sorted history file. */
  lemma LiveEqualsHistory(arrivals: seq<Trade>, file: seq<Trade>, sorted: seq<Trade>, key: CandleKey, size: nat,
                          live: seq<Cell>, stored: seq<Cell>)
    requires size > 0 && Consistent(arrivals + file)
    requires AscendingIds(sorted) && Ids(sorted) == Ids(file) && forall t :: t in sorted ==> t in file
    requires Ids(arrivals) == Ids(InCandle(file, key.tf, key.candleTime))
    requires IsSnapshot(live, Group(AsCells(Kept([], arrivals)), size))
    requires IsSnapshot(stored, Group(AsCells(LogFor(sorted, key)), size))
    ensures live == stored
  {
    hide CandleTimeUnix, IsSnapshot, Group, AscendingIds, Consistent, Ids, Kept, InCandle;
    var sel := InCandle(sorted, key.tf, key.candleTime);
    InCandleAscends(sorted, key.tf, key.candleTime);
    AscendingKeepsAll(sel);
    AscendingIsDistinct(sel);
    KeptIds([], arrivals);
    NoIds();
    SelectionConsistent(arrivals, file, sorted, key);
    SelectionIds(file, sorted, key);
    SameIdsSameTrades(Kept([], arrivals), sel);
    SameTradesSameCells(Kept([], arrivals), sel, size);
    SnapshotUnique(live, stored, Group(AsCells(sel), size));
  }

  lemma SelectionIds(file: seq<Trade>, sorted: seq<Trade>, key: CandleKey)
    requires Consistent(file) && Ids(sorted) == Ids(file) && forall t :: t in sorted ==> t in file
    ensures Ids(InCandle(sorted, key.tf, key.candleTime)) == Ids(InCandle(file, key.tf, key.candleTime))
  {
    hide CandleTimeUnix;
    assert forall t :: t in file ==> t in sorted by {
      forall t | t in file ensures t in sorted {
        assert t.id in Ids(sorted);
        var u :| u in sorted && u.id == t.id;
      }
    }
    forall t ensures t in InCandle(sorted, key.tf, key.candleTime) <==> t in InCandle(file, key.tf, key.candleTime) {
      InCandleMembers(sorted, key.tf, key.candleTime, t);
      InCandleMembers(file, key.tf, key.candleTime, t);
    }
    SameIds(InCandle(sorted, key.tf, key.candleTime), InCandle(file, key.tf, key.candleTime));
  }

  lemma SelectionConsistent(arrivals: seq<Trade>, file: seq<Trade>, sorted: seq<Trade>, key: CandleKey)
    requires Consistent(arrivals + file) && forall t :: t in sorted ==> t in file
    ensures Consistent(file)
    ensures Consistent(Kept([], arrivals) + InCandle(sorted, key.tf, key.candleTime))
  {
    hide CandleTimeUnix, Kept;
    KeptIds([], arrivals);
    var sel := InCandle(sorted, key.tf, key.candleTime);
    forall t | t in Kept([], arrivals) + sel ensures t in arrivals + file {
      InCandleMembers(sorted, key.tf, key.candleTime, t);
    }
    assert forall t :: t in file ==> t in arrivals + file;
  }
}
