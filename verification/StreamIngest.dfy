// backend/internal/ingest/ws_client.go, the per-trade loop: every trade goes to every timeframe's
// aggregator, and a reported gap is filled from the exchange and replayed. Also SortAndDedup of
// binance.go.

module StreamIngest {
  import Sorting
  import Sequences
  import opened Trades
  import Aggregation
  import opened GapFilling

  /** Between its first trade and its highest ID the log misses nothing. */
  ghost predicate NoHoles(log: seq<Trade>) {
    log != [] ==> Whole(log[0].id, MaxId(log), Ids(log))
  }

  ghost predicate Whole(first: int, last: int, ids: set<int>) {
    forall id :: first <= id <= last ==> id in ids
  }

  /** Trade IDs of the exchange are positive and consecutive. */
  ghost predicate Contiguous(exchange: seq<Trade>) {
    && AscendingIds(exchange)
    && PositiveIds(exchange)
    && forall i :: 0 <= i < |exchange| ==> exchange[i].id == exchange[0].id + i
  }

  ghost predicate FromExchange(log: seq<Trade>, exchange: seq<Trade>) {
    forall t :: t in log ==> t in exchange
  }

  /** What was fetched of a gap. When that is not all, the last request, the n-th and for IDs from `asked`
      on, got no batch. */
  datatype Fill = Fill(trades: seq<Trade>, complete: bool, n: nat, asked: int)

  /** The fill of the gap that the trade opens: all the exchange has of it; or nothing, when a request
      failed; or, when a rate limit persisted, all up to the request that was given up. */
  ghost predicate FillOf(before: seq<Trade>, t: Trade, fill: Fill, fetch: Fetch, exchange: seq<Trade>) {
    if fill.complete then fill.trades == Missed(before, t, exchange)
    else OpensGap(before, t) && FellShort(MaxId(before) + 1, t.id - 1, fill, fetch, exchange)
  }

  ghost predicate FellShort(start: int, end: int, fill: Fill, fetch: Fetch, exchange: seq<Trade>) {
    && start <= fill.asked <= end && !fetch(fill.n, fill.asked).Batch?
    && ((fetch(fill.n, fill.asked).Failed? && fill.trades == [])
        || (fill.n > 0 && fetch(fill.n - 1, fill.asked).RateLimited?
            && fill.trades == Between(exchange, start, fill.asked - 1)))
  }

  /** One trade into one aggregator, with gap replay. */
  method HandleTrade(agg: Aggregation.Aggregator, t: Trade, fetch: Fetch, calls0: nat, ghost exchange: seq<Trade>)
    returns (calls: nat, complete: bool, ghost fill: Fill)
    requires agg.Valid() && Contiguous(exchange) && Faithful(fetch, exchange)
    modifies agg
    ensures agg.Valid() && calls >= calls0 && t.id in Ids(agg.log)
    ensures agg.log == Handled(old(agg.log), t, fill.trades)
    ensures FillOf(old(agg.log), t, fill, fetch, exchange) && FillFor(old(agg.log), t, fill.trades, exchange)
    ensures complete == fill.complete && (!complete ==> calls0 <= fill.n < calls)
    ensures FromExchange(old(agg.log) + [t], exchange) ==> FromExchange(agg.log, exchange)
    ensures FromExchange(old(agg.log) + [t], exchange) && NoHoles(old(agg.log)) && complete ==> NoHoles(agg.log)
  {
    hide Binning.Bin, Binning.BinSize, Aggregation.Accounts, Contiguous, NoHoles, FromExchange;
    hide Faithful, Ids, MaxId, Kept, Between, AscendingIds, DistinctIds, FellShort, FillOf, FillFor;
    calls, fill := calls0, Fill([], true, 0, t.id);
    complete := true;
    ghost var log := agg.log;
    KeptOne(log, t);
    assert DistinctIds(log) by { agg.LogIsDistinct(); }
    assert AscendingIds(exchange) by { ContiguousAscends(exchange); }
    var gapStart, gapEnd, hasGap := agg.ProcessTrade(t);
    if hasGap {
      calls, complete, fill := Replay(agg, gapStart, gapEnd, fetch, calls0, exchange);
    }
    FillIs(log, t, fill, fetch, exchange);
    HandledKeeps(log, t, fill, fetch, exchange);
  }

  lemma FillIs(before: seq<Trade>, t: Trade, fill: Fill, fetch: Fetch, exchange: seq<Trade>)
    requires var start, end := MaxId(before) + 1, t.id - 1;
             if !OpensGap(before, t) then fill.complete && fill.trades == []
             else && fill.trades <= Between(exchange, start, end)
                  && if fill.complete then fill.trades == Between(exchange, start, end)
                     else FellShort(start, end, fill, fetch, exchange)
    ensures FillOf(before, t, fill, fetch, exchange) && FillFor(before, t, fill.trades, exchange)
  {
    hide OpensGap, FellShort, Between, MaxId;
  }

  /** What a handled trade leaves in the log. */
  lemma HandledKeeps(log: seq<Trade>, t: Trade, fill: Fill, fetch: Fetch, exchange: seq<Trade>)
    requires DistinctIds(log) && Contiguous(exchange)
    requires FillOf(log, t, fill, fetch, exchange) && FillFor(log, t, fill.trades, exchange)
    ensures var after := Handled(log, t, fill.trades);
            && t.id in Ids(after)
            && (FromExchange(log + [t], exchange) ==> FromExchange(after, exchange))
            && (FromExchange(log + [t], exchange) && NoHoles(log) && fill.complete ==> NoHoles(after))
  {
    hide Contiguous, NoHoles, FromExchange, FellShort, Ids, MaxId, AscendingIds, DistinctIds, Handled, Missed, FillFor;
    ContiguousAscends(exchange);
    HandledIds(log, t, fill.trades);
    if FromExchange(log + [t], exchange) {
      HandledFromExchange(log, t, fill.trades, exchange);
      if NoHoles(log) && fill.complete {
        FillClosesHole(log, t, fill.trades, exchange);
      }
    }
  }

  /** Fetch a gap and feed the aggregator what came back. */
  method Replay(agg: Aggregation.Aggregator, gapStart: int, gapEnd: int, fetch: Fetch, calls0: nat,
                ghost exchange: seq<Trade>)
    returns (calls: nat, complete: bool, ghost fill: Fill)
    requires agg.Valid() && AscendingIds(exchange) && Faithful(fetch, exchange)
    modifies agg
    ensures agg.Valid() && calls >= calls0
    ensures agg.log == Kept(old(agg.log), fill.trades)
    ensures fill.trades <= Between(exchange, gapStart, gapEnd)
    ensures complete == fill.complete && (!complete ==> calls0 <= fill.n < calls)
    ensures if complete then fill.trades == Between(exchange, gapStart, gapEnd)
            else FellShort(gapStart, gapEnd, fill, fetch, exchange)
  {
    hide Between, Faithful, Ordered, AscendingIds, Kept, Aggregation.Aggregator.Valid, MaxId, Ids;
    var gapTrades, ok, gaveUp;
    ghost var asked;
    FaithfulIsOrdered(fetch, exchange);
    gapTrades, ok, gaveUp, calls, asked := FillGap(fetch, gapStart, gapEnd, calls0, exchange);
    fill := Fill([], false, if calls > 0 then calls - 1 else 0, asked);
    Aggregation.KeptNone(agg.log);
    if ok {
      Aggregation.ProcessAll(agg, gapTrades);
      fill := fill.(trades := gapTrades);
    }
    complete := ok && !gaveUp;
    fill := fill.(complete := complete);
  }

  lemma ContiguousAscends(exchange: seq<Trade>)
    requires Contiguous(exchange)
    ensures AscendingIds(exchange) && forall t :: t in exchange ==> t.id > 0
  {
  }

  lemma KeptOne(log: seq<Trade>, t: Trade)
    ensures Kept(log, [t]) == if t.id in Ids(log) then log else log + [t]
    ensures Kept(Kept(log, [t]), []) == Kept(log, [t])
  {
    KeptAppend(log, [], t);
    assert [] + [t] == [t];
  }

  /** The log after a trade and the replay of a fill. */
  ghost function Handled(log: seq<Trade>, t: Trade, filled: seq<Trade>): seq<Trade> {
    Kept(Kept(log, [t]), filled)
  }

  /** A new ID that jumps past the highest one, when there is one. */
  ghost predicate OpensGap(log: seq<Trade>, t: Trade) {
    t.id !in Ids(log) && MaxId(log) > 0 && t.id > MaxId(log) + 1
  }

  /** What the exchange has in the gap that the trade opens. */
  ghost function Missed(log: seq<Trade>, t: Trade, exchange: seq<Trade>): seq<Trade> {
    if OpensGap(log, t) then Between(exchange, MaxId(log) + 1, t.id - 1) else []
  }

  ghost predicate FillFor(log: seq<Trade>, t: Trade, filled: seq<Trade>, exchange: seq<Trade>) {
    filled <= Missed(log, t, exchange)
  }

  lemma HandledIds(log: seq<Trade>, t: Trade, filled: seq<Trade>)
    requires DistinctIds(log)
    ensures Ids(Handled(log, t, filled)) == Ids(log) + {t.id} + Ids(filled)
    ensures forall u :: u in Handled(log, t, filled) ==> u in log + [t] || u in filled
    ensures log <= Handled(log, t, filled)
    ensures log == [] ==> [t] <= Handled(log, t, filled)
  {
    hide MaxId;
    KeptIds(log, [t]);
    KeptIds(Kept(log, [t]), filled);
    KeptOne(log, t);
    assert Ids([t]) == {t.id} by {
      assert t in [t];
    }
  }

  lemma FilledRange(log: seq<Trade>, t: Trade, filled: seq<Trade>, exchange: seq<Trade>)
    requires AscendingIds(exchange) && FillFor(log, t, filled, exchange)
    ensures forall u :: u in filled ==> u in exchange && MaxId(log) < u.id < t.id
  {
    hide MaxId;
    var range := Between(exchange, MaxId(log) + 1, t.id - 1);
    forall u | u in filled ensures u in exchange && MaxId(log) < u.id < t.id {
      assert u in range && u.id in Ids(range);
      BetweenIds(exchange, MaxId(log) + 1, t.id - 1, u.id);
    }
  }

  lemma HandledFromExchange(log: seq<Trade>, t: Trade, filled: seq<Trade>, exchange: seq<Trade>)
    requires DistinctIds(log) && AscendingIds(exchange) && FillFor(log, t, filled, exchange)
    requires FromExchange(log + [t], exchange)
    ensures FromExchange(Handled(log, t, filled), exchange)
  {
    hide Handled, FillFor;
    HandledIds(log, t, filled);
    FilledRange(log, t, filled, exchange);
  }

  lemma ContiguousContains(exchange: seq<Trade>, t: Trade, u: Trade, id: int)
    requires Contiguous(exchange) && t in exchange && u in exchange && t.id <= id <= u.id
    ensures id in Ids(exchange)
  {
    var i :| 0 <= i < |exchange| && exchange[i] == t;
    var j :| 0 <= j < |exchange| && exchange[j] == u;
    var k := id - exchange[0].id;
    assert exchange[k] in exchange && exchange[k].id == id;
  }

  lemma {:induction false} MaxIdAttained(log: seq<Trade>)
    requires MaxId(log) > 0
    ensures exists t :: t in log && t.id == MaxId(log)
  {
    var init, last := log[..|log| - 1], log[|log| - 1];
    assert log == init + [last] && last in log;
    if last.id <= MaxId(init) {
      MaxIdAttained(init);
      var t :| t in init && t.id == MaxId(init);
      assert t in log;
    }
  }

  /** The interval up to the new highest ID is whole when the fill brings everything between. */
  lemma FillClosesHole(log: seq<Trade>, t: Trade, filled: seq<Trade>, exchange: seq<Trade>)
    requires DistinctIds(log) && Contiguous(exchange) && FromExchange(log + [t], exchange) && NoHoles(log)
    requires filled == Missed(log, t, exchange)
    ensures NoHoles(Handled(log, t, filled))
  {
    hide Contiguous, MaxId, Ids, Kept, DistinctIds;
    HandledIds(log, t, filled);
    var all, last := Handled(log, t, filled), MaxId(log);
    assert t in log + [t] && t in exchange;
    HandledBound(log, t, filled, exchange);
    if log != [] {
      hide Handled, FillFor, Between;
      forall id | last < id < t.id ensures id in Ids(filled) {
        MissedIsFilled(log, t, exchange, id);
      }
      WholeStep(log[0].id, last, Ids(log), t.id, Ids(filled), MaxId(all));
    } else {
      NoIds();
      ContiguousAscends(exchange);
      assert all[0] == [t][0];
    }
  }

  lemma WholeStep(first: int, last: int, ids: set<int>, id: int, filled: set<int>, last': int)
    requires Whole(first, last, ids) && last' <= if id > last then id else last
    requires forall x :: last < x < id ==> x in filled
    ensures Whole(first, last', ids + {id} + filled)
  {
  }

  lemma MissedIsFilled(log: seq<Trade>, t: Trade, exchange: seq<Trade>, id: int)
    requires log != [] && Contiguous(exchange) && FromExchange(log + [t], exchange)
    requires MaxId(log) < id < t.id
    ensures MaxId(log) > 0 && t.id !in Ids(log)
    ensures id in Ids(Between(exchange, MaxId(log) + 1, t.id - 1))
  {
    hide Contiguous, MaxId, Ids, Between;
    assert log[0] in log + [t] && t in log + [t];
    ContiguousAscends(exchange);
    MaxIdIsHighest(log);
    MaxIdAttained(log);
    var u :| u in log && u.id == MaxId(log);
    assert u in log + [t];
    ContiguousContains(exchange, u, t, id);
    BetweenIds(exchange, MaxId(log) + 1, t.id - 1, id);
  }

  lemma HandledBound(log: seq<Trade>, t: Trade, filled: seq<Trade>, exchange: seq<Trade>)
    requires DistinctIds(log) && Contiguous(exchange) && t in exchange && FillFor(log, t, filled, exchange)
    ensures MaxId(Handled(log, t, filled)) <= if t.id > MaxId(log) then t.id else MaxId(log)
  {
    hide Contiguous, MaxId, Ids, Handled, FillFor;
    ContiguousAscends(exchange);
    HandledIds(log, t, filled);
    FilledRange(log, t, filled, exchange);
    MaxIdIsHighest(log);
    MaxIdBound(Handled(log, t, filled), if t.id > MaxId(log) then t.id else MaxId(log));
  }

  lemma {:induction false} MaxIdBound(ts: seq<Trade>, m: int)
    requires m >= 0 && forall t :: t in ts ==> t.id <= m
    ensures MaxId(ts) <= m
  {
    if ts != [] {
      var init := ts[..|ts| - 1];
      assert ts == init + [ts[|ts| - 1]];
      MaxIdBound(init, m);
    }
  }

  /** Trades with IDs below `first`: late arrivals from before the stream was joined. */
  function Early(ts: seq<Trade>, first: int): seq<Trade> {
    if ts == [] then []
    else
      var rest, t := Early(ts[..|ts| - 1], first), ts[|ts| - 1];
      if t.id < first then rest + [t] else rest
  }

  lemma {:induction false} EarlyMembers(ts: seq<Trade>, first: int)
    ensures forall t :: t in Early(ts, first) <==> t in ts && t.id < first
    ensures DistinctIds(ts) ==> DistinctIds(Early(ts, first))
    ensures (forall t :: t in ts ==> first <= t.id) ==> Early(ts, first) == []
  {
    if ts != [] {
      var init, last := ts[..|ts| - 1], ts[|ts| - 1];
      assert ts == init + [last];
      EarlyMembers(init, first);
      if DistinctIds(ts) {
        forall i | 0 <= i < |Early(init, first)| ensures Early(init, first)[i].id != last.id {
          var t := Early(init, first)[i];
          assert t in init;
          var j :| 0 <= j < |init| && init[j] == t;
          assert ts[j].id != ts[|ts| - 1].id;
        }
      }
    }
  }

  /** A log without holes aggregates to the same cells as the exchange's own gap-free stream from its
      first trade on, and what arrived late from before it. */
  lemma GapFreeCells(log: seq<Trade>, exchange: seq<Trade>, size: nat)
    requires size > 0 && Contiguous(exchange) && FromExchange(log, exchange)
    requires DistinctIds(log) && NoHoles(log) && log != []
    ensures var whole := Between(exchange, log[0].id, MaxId(log)); var early := Early(log, log[0].id);
            && Cells.Group(AsCells(log), size) == Cells.Group(AsCells(early + whole), size)
            && (early == [] ==> Cells.Group(AsCells(log), size) == Cells.Group(AsCells(whole), size))
  {
    var whole, early := Between(exchange, log[0].id, MaxId(log)), Early(log, log[0].id);
    WholeIds(log, exchange);
    PartOfExchange(exchange, log[0].id, MaxId(log));
    EarlyMembers(log, log[0].id);
    EarlyThenWhole(log, exchange);
    hide Ids, MaxId, Below, Between, NoHoles, Early;
    assert Consistent(log + (early + whole)) by {
      ContiguousAscends(exchange);
      forall t, u | t in log + (early + whole) && u in log + (early + whole) && t.id == u.id ensures t == u {
        SameIdSameTrade(exchange, t, u);
      }
    }
    SameIdsSameTrades(log, early + whole);
    assert early == [] ==> early + whole == whole;
    hide *;
    SameTradesSameCells(log, early + whole, size);
  }

  lemma EarlyThenWhole(log: seq<Trade>, exchange: seq<Trade>)
    requires AscendingIds(exchange) && DistinctIds(log) && log != []
    ensures DistinctIds(Early(log, log[0].id) + Between(exchange, log[0].id, MaxId(log)))
  {
    var whole, early := Between(exchange, log[0].id, MaxId(log)), Early(log, log[0].id);
    EarlyMembers(log, log[0].id);
    PartOfExchange(exchange, log[0].id, MaxId(log));
    hide Between, Early, MaxId, AscendingIds;
    forall i, j | 0 <= i < |early| && 0 <= j < |whole| ensures early[i].id < whole[j].id {
      assert early[i] in early && whole[j] in whole && whole[j].id in Ids(whole);
      BetweenIds(exchange, log[0].id, MaxId(log), whole[j].id);
    }
  }

  lemma SameIdSameTrade(exchange: seq<Trade>, t: Trade, u: Trade)
    requires AscendingIds(exchange) && t in exchange && u in exchange && t.id == u.id
    ensures t == u
  {
  }

  lemma PartOfExchange(exchange: seq<Trade>, lo: int, hi: int)
    requires AscendingIds(exchange)
    ensures DistinctIds(Between(exchange, lo, hi)) && FromExchange(Between(exchange, lo, hi), exchange)
  {
  }

  lemma WholeIds(log: seq<Trade>, exchange: seq<Trade>)
    requires Contiguous(exchange) && FromExchange(log, exchange) && NoHoles(log) && log != []
    ensures Ids(log) == Ids(Early(log, log[0].id) + Between(exchange, log[0].id, MaxId(log)))
  {
    MaxIdIsHighest(log);
    EarlyMembers(log, log[0].id);
    var early, whole := Early(log, log[0].id), Between(exchange, log[0].id, MaxId(log));
    hide Early, Between, MaxId;
    forall id ensures id in Ids(log) <==> id in Ids(early + whole) {
      IdsOfBoth(early, whole, id);
      BetweenIds(exchange, log[0].id, MaxId(log), id);
      if id in Ids(log) {
        var t :| t in log && t.id == id;
        assert t in exchange;
      }
    }
  }

  lemma IdsOfBoth(a: seq<Trade>, b: seq<Trade>, id: int)
    ensures id in Ids(a + b) <==> id in Ids(a) || id in Ids(b)
  {
    if id in Ids(a) {
      var t :| t in a && t.id == id;
      assert t in a + b;
    }
    if id in Ids(b) {
      var t :| t in b && t.id == id;
      assert t in a + b;
    }
  }

  lemma SameTradesSameCells(a: seq<Trade>, b: seq<Trade>, size: nat)
    requires size > 0 && multiset(a) == multiset(b)
    ensures Cells.Group(AsCells(a), size) == Cells.Group(AsCells(b), size)
  {
    CellsOfPermutation(a, b);
    Cells.GroupOfPermutation(AsCells(a), AsCells(b), size);
  }

  lemma {:induction false} CellsOfPermutation(a: seq<Trade>, b: seq<Trade>)
    requires multiset(a) == multiset(b)
    ensures multiset(AsCells(a)) == multiset(AsCells(b))
  {
    if a == [] {
      assert |b| == |multiset(b)| == 0;
    } else {
      var i := Sequences.PermutationStep(a, b);
      var a', x, l, r := a[..|a| - 1], a[|a| - 1], b[..i], b[i + 1..];
      CellsOfPermutation(a', l + r);
      assert a == a' + [x] && b == l + [x] + r;
      CellsConcat(a', [x]);
      CellsConcat(l + [x], r);
      CellsConcat(l, [x]);
      CellsConcat(l, r);
    }
  }

  lemma CellsConcat(a: seq<Trade>, b: seq<Trade>)
    ensures AsCells(a + b) == AsCells(a) + AsCells(b)
  {
  }

  /** One trade into the aggregators of all timeframes. */
  method OnTrade(aggs: seq<Aggregation.Aggregator>, t: Trade, fetch: Fetch, calls0: nat, ghost exchange: seq<Trade>)
    returns (calls: nat, complete: seq<bool>, ghost fills: seq<Fill>)
    requires forall i, j :: 0 <= i < j < |aggs| ==> aggs[i] != aggs[j]
    requires forall i :: 0 <= i < |aggs| ==> aggs[i].Valid()
    requires Contiguous(exchange) && Faithful(fetch, exchange)
    modifies aggs
    ensures calls >= calls0 && |complete| == |fills| == |aggs| && forall i :: 0 <= i < |aggs| ==> aggs[i].Valid()
    ensures forall i :: 0 <= i < |aggs| ==>
              && Replayed(old(aggs[i].log), aggs[i].log, t, fills[i], fetch, exchange)
              && complete[i] == fills[i].complete && (!complete[i] ==> calls0 <= fills[i].n < calls)
    ensures forall i :: 0 <= i < |aggs| && complete[i] && NoHoles(old(aggs[i].log)) &&
              FromExchange(old(aggs[i].log) + [t], exchange)
              ==> NoHoles(aggs[i].log) && FromExchange(aggs[i].log, exchange)
  {
    hide Contiguous, NoHoles, FromExchange, Faithful, Aggregation.Aggregator.Valid;
    hide Ids, Handled, FillFor, FillOf;
    complete, fills := [], [];
    calls := calls0;
    for i := 0 to |aggs|
      invariant calls >= calls0 && |complete| == |fills| == i
      invariant forall j :: 0 <= j < |aggs| ==> aggs[j].Valid()
      invariant forall j :: i <= j < |aggs| ==> aggs[j].log == old(aggs[j].log)
      invariant forall j :: 0 <= j < i ==>
                  && Replayed(old(aggs[j].log), aggs[j].log, t, fills[j], fetch, exchange)
                  && complete[j] == fills[j].complete && (!complete[j] ==> calls0 <= fills[j].n < calls)
      invariant forall j :: 0 <= j < i && complete[j] && NoHoles(old(aggs[j].log)) &&
                  FromExchange(old(aggs[j].log) + [t], exchange)
                  ==> NoHoles(aggs[j].log) && FromExchange(aggs[j].log, exchange)
    {
      var c;
      ghost var fill;
      calls, c, fill := HandleTrade(aggs[i], t, fetch, calls, exchange);
      complete, fills := complete + [c], fills + [fill];
    }
  }

  /** One aggregator's share of a message: the trade itself, then what was fetched of the gap it opened. */
  ghost predicate Replayed(before: seq<Trade>, after: seq<Trade>, t: Trade, fill: Fill, fetch: Fetch,
                           exchange: seq<Trade>) {
    after == Handled(before, t, fill.trades) && FillOf(before, t, fill, fetch, exchange)
  }

  function IdOf(t: Trade): int {
    t.id
  }

  /** SortAndDedup: the trades with unseen IDs, ascending, one per ID; `seen` is updated in place. */
  method SortAndDedup(trades: seq<Trade>, seen: set<int>) returns (result: seq<Trade>, seen': set<int>)
    ensures AscendingIds(result) && Ids(result) == Ids(trades) - seen
    ensures forall t :: t in result ==> t in trades
    ensures seen' == seen + Ids(trades)
  {
    hide Ids, MaxId;
    var sorted := Sorting.Sort(trades, IdOf);
    Sequences.MembersOfPermutation(sorted, trades);
    SameIds(sorted, trades);
    result, seen' := [], seen;
    NoIds();
    for i := 0 to |sorted|
      invariant seen' == seen + Ids(sorted[..i])
      invariant Ids(result) == Ids(sorted[..i]) - seen
      invariant AscendingIds(result)
      invariant forall t :: t in result ==> t in sorted[..i]
    {
      var t := sorted[i];
      assert sorted[..i + 1] == sorted[..i] + [t];
      IdsAppend(sorted[..i], t);
      if t.id !in seen' {
        seen' := seen' + {t.id};
        NextId(sorted, i, result);
        IdsAppend(result, t);
        result := result + [t];
      }
    }
    assert sorted[..|sorted|] == sorted;
  }

  lemma NoIds()
    ensures Ids([]) == {} && MaxId([]) == 0
  {
  }

  lemma SameIds(a: seq<Trade>, b: seq<Trade>)
    requires forall t :: t in a <==> t in b
    ensures Ids(a) == Ids(b)
  {
  }

  /** The next unseen trade of a sorted sequence has a higher ID than everything selected before. */
  lemma NextId(sorted: seq<Trade>, i: nat, result: seq<Trade>)
    requires Sorting.SortedBy(sorted, IdOf) && i < |sorted| && AscendingIds(result)
    requires sorted[i].id !in Ids(sorted[..i])
    requires forall t :: t in result ==> t in sorted[..i]
    ensures AscendingIds(result + [sorted[i]])
  {
    forall k | 0 <= k < |result| ensures result[k].id < sorted[i].id {
      assert result[k] in sorted[..i];
      var j :| 0 <= j < i && sorted[..i][j] == result[k];
      assert IdOf(sorted[j]) <= IdOf(sorted[i]);
      assert sorted[j] in sorted[..i] && sorted[j].id in Ids(sorted[..i]);
    }
  }
}
