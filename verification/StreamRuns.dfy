// backend/internal/ingest/ws_client.go over a whole connection: what the cells are after a sequence of
// messages, each replayed into one aggregator with the gap it opened.

module StreamRuns {
  import opened Cells
  import opened Trades
  import opened GapFilling
  import opened StreamIngest

  lemma HandledMax(log: seq<Trade>, t: Trade, filled: seq<Trade>, exchange: seq<Trade>)
    requires DistinctIds(log) && Contiguous(exchange) && t in exchange && FillFor(log, t, filled, exchange)
    ensures MaxId(Handled(log, t, filled)) == if t.id > MaxId(log) then t.id else MaxId(log)
  {
    hide Contiguous, FillFor, Kept, Ids, MaxId;
    HandledBound(log, t, filled, exchange);
    HandledIds(log, t, filled);
    MaxIdIsHighest(Handled(log, t, filled));
    ContiguousAscends(exchange);
    if MaxId(log) > 0 {
      MaxIdAttained(log);
      var u :| u in log && u.id == MaxId(log);
      assert u in Handled(log, t, filled);
    }
    MaxIdIsNonnegative(Handled(log, t, filled));
  }

  lemma MaxIdIsNonnegative(ts: seq<Trade>)
    ensures MaxId(ts) >= 0
  {
  }

  /** What is known of a log after these messages. */
  ghost predicate After(log: seq<Trade>, messages: seq<Trade>, exchange: seq<Trade>) {
    && FromExchange(log, exchange) && MaxId(log) == MaxId(messages)
    && (messages == [] <==> log == [])
    && (messages != [] ==> log[0] == messages[0])
    && (forall m :: m in messages ==> m.id in Ids(log))
    && (forall t :: t in log ==> t in messages || t.id > messages[0].id)
  }

  lemma AfterNone(exchange: seq<Trade>)
    ensures After([], [], exchange)
  {
  }

  /** Replayed trades come from above the highest ID, so they never precede the first message. */
  lemma AfterStep(log: seq<Trade>, messages: seq<Trade>, t: Trade, filled: seq<Trade>, exchange: seq<Trade>)
    requires DistinctIds(log) && Contiguous(exchange) && t in exchange && FillFor(log, t, filled, exchange)
    requires After(log, messages, exchange)
    ensures After(Handled(log, t, filled), messages + [t], exchange)
  {
    hide Contiguous, Kept, Ids, MaxId, Between;
    var all, after := messages + [t], Handled(log, t, filled);
    HandledMax(log, t, filled, exchange);
    HandledIds(log, t, filled);
    IdsAppend(messages, t);
    ContiguousAscends(exchange);
    FilledRange(log, t, filled, exchange);
    FirstOfHandled(log, t, filled, exchange);
    HandledFromExchange(log, t, filled, exchange);
    if messages != [] {
      MaxIdIsHighest(log);
      assert log[0] in log;
    } else {
      NothingMissed(log, t, filled, exchange);
    }
    forall u | u in after ensures u in all || u.id > all[0].id {
      assert u in log + [t] || u in filled;
    }
    forall m | m in all ensures m.id in Ids(after) {
      assert m in messages || m == t;
    }
  }

  lemma NothingMissed(log: seq<Trade>, t: Trade, filled: seq<Trade>, exchange: seq<Trade>)
    requires log == [] && FillFor(log, t, filled, exchange)
    ensures filled == []
  {
  }

  lemma FirstOfHandled(log: seq<Trade>, t: Trade, filled: seq<Trade>, exchange: seq<Trade>)
    requires DistinctIds(log)
    ensures Handled(log, t, filled) != []
    ensures Handled(log, t, filled)[0] == if log == [] then t else log[0]
  {
    hide Kept, Ids;
    HandledIds(log, t, filled);
    if log == [] {
      assert Handled(log, t, filled)[0] == [t][0];
    }
  }

  /** The log before, between and after the messages: each message adds its trade and its fill. */
  ghost predicate IsRun(logs: seq<seq<Trade>>, messages: seq<Trade>, fills: seq<Fill>, fetch: Fetch,
                        exchange: seq<Trade>) {
    && |logs| == |messages| + 1 && |fills| == |messages|
    && forall i :: 0 <= i < |messages| ==> Replayed(logs[i], logs[i + 1], messages[i], fills[i], fetch, exchange)
  }

  lemma RunGrows(logs: seq<seq<Trade>>, messages: seq<Trade>, fills: seq<Fill>, fetch: Fetch, exchange: seq<Trade>,
                 m: Trade, after: seq<Trade>, fill: Fill)
    requires IsRun(logs, messages, fills, fetch, exchange)
    requires Replayed(logs[|messages|], after, m, fill, fetch, exchange)
    ensures IsRun(logs + [after], messages + [m], fills + [fill], fetch, exchange)
  {
    hide Replayed;
  }

  /** A run of messages into a fresh or flushed aggregator. An incomplete run had a request without a
      batch. When every fill was complete the cells are those of the exchange's stream from the first
      message to the highest, without gaps, together with what arrived late from before the first message;
      nothing else when no message has a lower ID. */
  method ProcessMessages(agg: Aggregation.Aggregator, messages: seq<Trade>, fetch: Fetch, calls0: nat,
                         ghost exchange: seq<Trade>)
    returns (cells: seq<Cell>, complete: bool, calls: nat, ghost logs: seq<seq<Trade>>, ghost fills: seq<Fill>,
             ghost failed: nat)
    requires agg.Valid() && agg.log == [] && Contiguous(exchange) && Faithful(fetch, exchange)
    requires FromExchange(messages, exchange)
    modifies agg
    ensures agg.Valid() && After(agg.log, messages, exchange)
    ensures IsRun(logs, messages, fills, fetch, exchange) && logs[0] == [] && agg.log == logs[|messages|]
    ensures !complete ==> failed < |fills| && !fills[failed].complete && calls0 <= fills[failed].n < calls
                          && !fetch(fills[failed].n, fills[failed].asked).Batch?
    ensures complete ==> forall i :: 0 <= i < |fills| ==> fills[i].complete
    ensures (forall n, from :: fetch(n, from).Batch?) ==> complete
    ensures IsSnapshot(cells, Group(AsCells(agg.log), agg.Size()))
    ensures complete && messages != [] ==>
      var first := messages[0].id; var whole := Between(exchange, first, MaxId(messages));
      && IsSnapshot(cells, Group(AsCells(Early(agg.log, first) + whole), agg.Size()))
      && ((forall m :: m in messages ==> first <= m.id) ==> IsSnapshot(cells, Group(AsCells(whole), agg.Size())))
  {
    hide Aggregation.Aggregator.Valid, After, Contiguous, Faithful, NoHoles, IsRun, FillOf;
    hide FillFor, Handled, IsSnapshot, Group, Early, Between;
    complete, calls, failed := true, calls0, 0;
    logs, fills := [[]], [];
    AfterNone(exchange);
    NoHolesYet();
    NoRunYet(fetch, exchange);
    for i := 0 to |messages|
      invariant agg.Valid() && After(agg.log, messages[..i], exchange) && calls >= calls0
      invariant |logs| == i + 1 && |fills| == i && logs[0] == [] && logs[i] == agg.log
      invariant IsRun(logs, messages[..i], fills, fetch, exchange)
      invariant !complete ==> failed < |fills| && !fills[failed].complete && calls0 <= fills[failed].n < calls
                              && !fetch(fills[failed].n, fills[failed].asked).Batch?
      invariant complete ==> forall j :: 0 <= j < i ==> fills[j].complete
      invariant complete ==> NoHoles(agg.log)
    {
      ghost var log, t := agg.log, messages[i];
      LogIsDistinct(agg);
      assert messages[..i + 1] == messages[..i] + [t];
      MayHandle(log, messages[..i], t, messages, exchange);
      var c;
      ghost var fill;
      calls, c, fill := HandleTrade(agg, messages[i], fetch, calls, exchange);
      AfterStep(log, messages[..i], t, fill.trades, exchange);
      RunGrows(logs, messages[..i], fills, fetch, exchange, t, agg.log, fill);
      logs, fills := logs + [agg.log], fills + [fill];
      if !c {
        complete, failed := false, i;
        NoBatch(log, t, fill, fetch, exchange);
      }
    }
    assert messages[..|messages|] == messages;
    cells := agg.Cells();
    LogIsDistinct(agg);
    if complete && messages != [] {
      StreamCells(agg.log, messages, exchange, agg.Size());
    }
  }

  lemma NoRunYet(fetch: Fetch, exchange: seq<Trade>)
    ensures IsRun([[]], [], [], fetch, exchange)
  {
  }

  lemma NoBatch(before: seq<Trade>, t: Trade, fill: Fill, fetch: Fetch, exchange: seq<Trade>)
    requires FillOf(before, t, fill, fetch, exchange) && !fill.complete
    ensures !fetch(fill.n, fill.asked).Batch?
  {
  }

  lemma NoHolesYet()
    ensures NoHoles([])
  {
  }

  lemma LogIsDistinct(agg: Aggregation.Aggregator)
    requires agg.Valid()
    ensures DistinctIds(agg.log)
  {
  }

  lemma MayHandle(log: seq<Trade>, before: seq<Trade>, t: Trade, messages: seq<Trade>, exchange: seq<Trade>)
    requires After(log, before, exchange) && FromExchange(messages, exchange) && t in messages
    ensures FromExchange(log + [t], exchange) && t in exchange
  {
  }

  lemma StreamCells(log: seq<Trade>, messages: seq<Trade>, exchange: seq<Trade>, size: nat)
    requires size > 0 && Contiguous(exchange) && DistinctIds(log) && NoHoles(log)
    requires After(log, messages, exchange) && messages != []
    ensures var first := messages[0].id; var whole := Between(exchange, first, MaxId(messages));
            && Group(AsCells(log), size) == Group(AsCells(Early(log, first) + whole), size)
            && ((forall m :: m in messages ==> first <= m.id) ==>
                  Group(AsCells(log), size) == Group(AsCells(whole), size))
  {
    hide Contiguous, NoHoles, Group, Between, DistinctIds, Ids;
    GapFreeCells(log, exchange, size);
    EarlyMembers(log, messages[0].id);
  }

  // ----- late arrivals from before the first message -----

  ghost predicate Positive(ts: seq<Trade>) {
    forall t :: t in ts ==> t.qty > 0.0
  }

  lemma {:induction false} NonnegativeTotal(ts: seq<Trade>, side: Side, region: Region)
    requires Positive(ts)
    ensures Total(AsCells(ts), side, region) >= 0.0
    ensures forall t :: t in ts && region.Holds(t.price) && side == (if t.isBuyerMaker then Bid else Ask) ==>
              Total(AsCells(ts), side, region) > 0.0
  {
    if ts != [] {
      var init, t := ts[..|ts| - 1], ts[|ts| - 1];
      assert ts == init + [t] && t in ts;
      forall u | u in init ensures u.qty > 0.0 {
        assert u in ts;
      }
      NonnegativeTotal(init, side, region);
      IdsAppend(init, t);
      TotalAppend(AsCells(init), AsCell(t), side, region);
    }
  }

  /** With positive quantities, the cells of a log without holes are those of the gap-free stream exactly
      when nothing arrived late from before its first trade. */
  lemma GapFreeCellsIff(log: seq<Trade>, exchange: seq<Trade>, size: nat)
    requires size > 0 && Contiguous(exchange) && FromExchange(log, exchange)
    requires DistinctIds(log) && NoHoles(log) && log != [] && Positive(log)
    ensures Group(AsCells(log), size) == Group(AsCells(Between(exchange, log[0].id, MaxId(log))), size)
            <==> forall t :: t in log ==> log[0].id <= t.id
  {
    hide Contiguous, NoHoles, Between, DistinctIds, Ids, Binning.Bin, FromExchange;
    var early, whole := Early(log, log[0].id), Between(exchange, log[0].id, MaxId(log));
    GapFreeCells(log, exchange, size);
    EarlyMembers(log, log[0].id);
    if early != [] {
      assert early[0] in early;
      MoreCells(early, whole, size);
    }
  }

  lemma MoreCells(early: seq<Trade>, whole: seq<Trade>, size: nat)
    requires size > 0 && early != [] && Positive(early)
    ensures Group(AsCells(early + whole), size) != Group(AsCells(whole), size)
  {
    hide Binning.Bin;
    var t := early[0];
    var b, side := Binning.Bin(t.price, size), if t.isBuyerMaker then Bid else Ask;
    NonnegativeTotal(early, side, InBin(size, b));
    CellsConcat(early, whole);
    TotalConcat(AsCells(early), AsCells(whole), side, InBin(size, b));
    if b !in Bins(AsCells(whole), size) {
      var c := AsCells(early + whole)[0];
      assert c in AsCells(early + whole) && c.price == t.price;
      assert b in Group(AsCells(early + whole), size);
    } else if side == Bid {
      assert Group(AsCells(early + whole), size)[b].bid != Group(AsCells(whole), size)[b].bid;
    } else {
      assert Group(AsCells(early + whole), size)[b].ask != Group(AsCells(whole), size)[b].ask;
    }
  }
}
