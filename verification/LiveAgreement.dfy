// backend/internal/ingest/ws_client.go feeds each trade both to an aggregator and to the Redis hash of
// backend/internal/cache/redis.go. When do the two hold the same cells?

module LiveAgreement {
  import opened Rounding
  import opened Cells
  import opened Trades
  import opened RedisCells
  import opened StreamIngest

  // ----- the hash against the aggregator's log -----

  /** Every quantity is positive and a whole number of tenths. */
  ghost predicate WholeTenths(ts: seq<Trade>) {
    forall t :: t in ts ==> t.qty > 0.0 && IsTenths(t.qty)
  }

  /** A hash built from these arrivals holds the same numbers as one built from those. */
  ghost predicate SameHash(arrivals: seq<Trade>, log: seq<Trade>, size: nat)
    requires size > 0
  {
    forall field, side ::
      Stored(Live(AsCells(arrivals), size), field, side) == Stored(Live(AsCells(log), size), field, side)
  }

  function FieldOfTrade(t: Trade, size: nat): string
    requires size > 0
  {
    FieldOf(Binning.Bin(t.price, size))
  }

  function SideOf(t: Trade): Side {
    if t.isBuyerMaker then Bid else Ask
  }

  /** Exact volume of the trades on a field and side. */
  ghost function OnTrades(ts: seq<Trade>, size: nat, field: string, side: Side): real
    requires size > 0
  {
    Total(OnField(AsCells(ts), size, field), side, Everywhere)
  }

  lemma OnTradesAppend(ts: seq<Trade>, t: Trade, size: nat, field: string, side: Side)
    requires size > 0
    ensures OnTrades(ts + [t], size, field, side)
         == OnTrades(ts, size, field, side) + if FieldOfTrade(t, size) == field && SideOf(t) == side then t.qty else 0.0
  {
    hide FieldOf, Binning.Bin;
    IdsAppend(ts, t);
    var cs, c := AsCells(ts), AsCell(t);
    assert (cs + [c])[..|cs + [c]| - 1] == cs;
    TotalAppend(OnField(cs, size, field), c, side, Everywhere);
  }

  lemma ExactInTenths(ts: seq<Trade>, size: nat, field: string, side: Side)
    requires size > 0 && WholeTenths(ts)
    ensures Stored(Live(AsCells(ts), size), field, side) == OnTrades(ts, size, field, side)
  {
    hide FieldOf, Stored, Live, OnField, IsTenths;
    RoundExact(0.0);
    forall c | c in AsCells(ts) ensures IsTenths(Amount(c, side)) {
      var i :| 0 <= i < |ts| && AsCells(ts)[i] == c;
      assert ts[i] in ts;
      ZeroIsTenths();
    }
    NoDriftInTenths(AsCells(ts), size, field, side);
  }

  lemma ZeroIsTenths()
    ensures IsTenths(0.0)
  {
  }

  lemma WholeTenthsAppend(ts: seq<Trade>, t: Trade)
    ensures WholeTenths(ts + [t]) <==> WholeTenths(ts) && t.qty > 0.0 && IsTenths(t.qty)
  {
    hide IsTenths;
    var all := ts + [t];
    assert t in all;
    if WholeTenths(all) {
      forall u | u in ts ensures u.qty > 0.0 && IsTenths(u.qty) {
        assert u in all;
      }
    }
  }

  /** Deduplication can only take volume away from a field. */
  lemma {:induction false} KeptAtMost(arrivals: seq<Trade>, size: nat, field: string, side: Side)
    requires size > 0 && WholeTenths(arrivals)
    ensures OnTrades(Kept([], arrivals), size, field, side) <= OnTrades(arrivals, size, field, side)
    ensures WholeTenths(Kept([], arrivals))
  {
    hide OnTrades, FieldOfTrade, WholeTenths, Ids, Kept;
    if arrivals == [] {
      KeptNothing();
    } else {
      var init, t := arrivals[..|arrivals| - 1], arrivals[|arrivals| - 1];
      assert arrivals == init + [t];
      WholeTenthsAppend(init, t);
      KeptAtMost(init, size, field, side);
      KeptAppend([], init, t);
      OnTradesAppend(init, t, size, field, side);
      OnTradesAppend(Kept([], init), t, size, field, side);
      WholeTenthsAppend(Kept([], init), t);
    }
  }

  /** A repeated arrival shows: its field has more on its side than the log accounts for. */
  lemma {:induction false} RepeatShows(arrivals: seq<Trade>, size: nat) returns (field: string, side: Side)
    requires size > 0 && WholeTenths(arrivals) && !DistinctIds(arrivals)
    ensures OnTrades(Kept([], arrivals), size, field, side) < OnTrades(arrivals, size, field, side)
  {
    hide OnTrades, FieldOfTrade, WholeTenths, Ids, Kept;
    var init, t := arrivals[..|arrivals| - 1], arrivals[|arrivals| - 1];
    assert arrivals == init + [t];
    WholeTenthsAppend(init, t);
    KeptAppend([], init, t);
    if t.id in Ids(Kept([], init)) {
      field, side := FieldOfTrade(t, size), SideOf(t);
      KeptAtMost(init, size, field, side);
    } else {
      StillRepeats(init, t);
      field, side := RepeatShows(init, size);
      OnTradesAppend(Kept([], init), t, size, field, side);
    }
    OnTradesAppend(init, t, size, field, side);
  }

  lemma StillRepeats(init: seq<Trade>, t: Trade)
    requires !DistinctIds(init + [t]) && t.id !in Ids(Kept([], init))
    ensures !DistinctIds(init)
  {
    hide Kept;
    KeptNothing();
    KeptIds([], init);
    if DistinctIds(init) {
      LogGrows(init, t);
    }
  }

  lemma {:induction false} DistinctKeepsAll(arrivals: seq<Trade>)
    requires DistinctIds(arrivals)
    ensures Kept([], arrivals) == arrivals
  {
    hide Ids, Kept;
    if arrivals == [] {
      KeptNothing();
    } else {
      var init, t := arrivals[..|arrivals| - 1], arrivals[|arrivals| - 1];
      assert arrivals == init + [t];
      DistinctKeepsAll(init);
      KeptAppend([], init, t);
      NewAtTheEnd(arrivals);
    }
  }

  lemma NewAtTheEnd(arrivals: seq<Trade>)
    requires DistinctIds(arrivals) && arrivals != []
    ensures arrivals[|arrivals| - 1].id !in Ids(arrivals[..|arrivals| - 1])
  {
    var init := arrivals[..|arrivals| - 1];
    forall u | u in init ensures u.id != arrivals[|arrivals| - 1].id {
      var i :| 0 <= i < |init| && init[i] == u;
      assert arrivals[i].id != arrivals[|arrivals| - 1].id;
    }
  }

  lemma KeptNothing()
    ensures Kept([], []) == [] && Ids([]) == {}
  {
  }

  /** The hash does not know trade IDs. Fed the same arrivals, hash and aggregator hold the same cells
      exactly when no ID arrives twice. */
  lemma HashAgreesIffDistinct(arrivals: seq<Trade>, size: nat)
    requires size > 0 && WholeTenths(arrivals)
    ensures SameHash(arrivals, Kept([], arrivals), size) <==> DistinctIds(arrivals)
  {
    hide Stored, Live, OnTrades, WholeTenths, DistinctIds, Kept;
    if DistinctIds(arrivals) {
      DistinctKeepsAll(arrivals);
    } else {
      var field, side := RepeatShows(arrivals, size);
      KeptAtMost(arrivals, size, field, side);
      ExactInTenths(arrivals, size, field, side);
      ExactInTenths(Kept([], arrivals), size, field, side);
    }
  }

  /** The simplest failure: a trade that arrives twice counts twice, while the aggregator keeps it once. */
  lemma RepeatIsCountedTwice(t: Trade, size: nat)
    requires size > 0 && WholeTenths([t, t])
    ensures Stored(Live(AsCells([t, t]), size), FieldOfTrade(t, size), SideOf(t)) == 2.0 * t.qty
    ensures Kept([], [t, t]) == [t]
  {
    hide Stored, Live, OnTrades, FieldOfTrade, WholeTenths, Kept;
    var field, side := FieldOfTrade(t, size), SideOf(t);
    assert [] + [t] == [t] && [t] + [t] == [t, t];
    ExactInTenths([t, t], size, field, side);
    OnTradesAppend([t], t, size, field, side);
    OnTradesAppend([], t, size, field, side);
    OnNoTrades(size, field, side);
    KeptNothing();
    KeptAppend([], [], t);
    KeptAppend([], [t], t);
    assert t in [t];
  }

  lemma OnNoTrades(size: nat, field: string, side: Side)
    requires size > 0
    ensures OnTrades([], size, field, side) == 0.0
  {
    assert AsCells([]) == [];
  }

  /** The hash does not see replayed trades either. From a state in which hash and log agree, they agree
      after a message exactly when its trade was new and the replay of its gap added nothing. */
  lemma MessageKeepsAgreementIff(log: seq<Trade>, t: Trade, filled: seq<Trade>, exchange: seq<Trade>, size: nat)
    requires size > 0 && DistinctIds(log) && AscendingIds(exchange) && FillFor(log, t, filled, exchange)
    requires WholeTenths(log + [t] + filled)
    ensures SameHash(log + [t], Handled(log, t, filled), size) <==> t.id !in Ids(log) && filled == []
  {
    hide Stored, Live, OnTrades, WholeTenths, Kept, Ids, DistinctIds, AscendingIds, FillFor, Handled;
    MessageTenths(log, t, filled);
    HandledAs(log, t, filled, exchange);
    var after := Handled(log, t, filled);
    if t.id in Ids(log) {
      var field, side := FieldOfTrade(t, size), SideOf(t);
      ExactInTenths(log + [t], size, field, side);
      ExactInTenths(log, size, field, side);
      OnTradesAppend(log, t, size, field, side);
    } else if filled != [] {
      var u := filled[0];
      assert filled == [u] + filled[1..];
      var field, side := FieldOfTrade(u, size), SideOf(u);
      ExactInTenths(log + [t], size, field, side);
      ExactInTenths(log + [t] + filled, size, field, side);
      MoreIsMore(log + [t], filled, size, u);
    } else {
      assert log + [t] + filled == log + [t];
    }
  }

  lemma MessageTenths(log: seq<Trade>, t: Trade, filled: seq<Trade>)
    requires WholeTenths(log + [t] + filled)
    ensures WholeTenths(log + [t]) && WholeTenths(log) && WholeTenths(filled) && t.qty > 0.0
  {
    hide IsTenths;
    var all := log + [t] + filled;
    assert t in all;
    assert forall u :: u in log + [t] || u in filled ==> u in all;
    assert forall u :: u in log ==> u in log + [t];
  }

  /** What a message makes of the log, given that only new IDs are fetched. */
  lemma HandledAs(log: seq<Trade>, t: Trade, filled: seq<Trade>, exchange: seq<Trade>)
    requires DistinctIds(log) && AscendingIds(exchange) && FillFor(log, t, filled, exchange)
    ensures Handled(log, t, filled) == if t.id in Ids(log) then log else log + [t] + filled
  {
    hide Kept, GapFilling.Between;
    KeptOne(log, t);
    if t.id in Ids(log) {
      assert filled == [];
    } else {
      FilledRange(log, t, filled, exchange);
      FilledAscends(log, t, filled, exchange);
      MaxIdIsHighest(log);
      NewIdsAreKept(log + [t], filled);
      assert log + [t] + [] == log + [t];
    }
  }

  lemma FilledAscends(log: seq<Trade>, t: Trade, filled: seq<Trade>, exchange: seq<Trade>)
    requires AscendingIds(exchange) && FillFor(log, t, filled, exchange)
    ensures AscendingIds(filled)
  {
    hide MaxId, Ids, GapFilling.Below;
    var missed := Missed(log, t, exchange);
    forall i, j | 0 <= i < j < |filled| ensures filled[i].id < filled[j].id {
      assert filled[i] == missed[i] && filled[j] == missed[j];
    }
  }

  lemma {:induction false} NewIdsAreKept(log: seq<Trade>, more: seq<Trade>)
    requires AscendingIds(more) && forall u :: u in more ==> u.id !in Ids(log)
    ensures Kept(log, more) == log + more
  {
    hide Ids, Kept;
    if more == [] {
      KeptNoMore(log);
    } else {
      var init, u := more[..|more| - 1], more[|more| - 1];
      assert more == init + [u] && u in more;
      forall v | v in init ensures v.id !in Ids(log) {
        assert v in more;
      }
      NewIdsAreKept(log, init);
      KeptAppend(log, init, u);
      LastIsNew(log, init, u);
      assert log + init + [u] == log + more;
    }
  }

  lemma KeptNoMore(log: seq<Trade>)
    ensures Kept(log, []) == log + []
  {
  }

  lemma LastIsNew(log: seq<Trade>, init: seq<Trade>, u: Trade)
    requires AscendingIds(init + [u]) && u.id !in Ids(log)
    ensures u.id !in Ids(log + init)
  {
    var all := init + [u];
    forall v | v in log + init ensures v.id != u.id {
      if v in init {
        var i :| 0 <= i < |init| && init[i] == v;
        assert all[i].id < all[|init|].id;
      } else {
        assert v in log;
      }
    }
  }

  /** More positive trades put strictly more volume where one of them falls. */
  lemma {:induction false} MoreIsMore(ts: seq<Trade>, more: seq<Trade>, size: nat, u: Trade)
    requires size > 0 && WholeTenths(more)
    ensures var field, side := FieldOfTrade(u, size), SideOf(u);
            && OnTrades(ts, size, field, side) <= OnTrades(ts + more, size, field, side)
            && (u in more ==> OnTrades(ts, size, field, side) < OnTrades(ts + more, size, field, side))
  {
    hide OnTrades, FieldOfTrade, WholeTenths;
    if more == [] {
      assert ts + more == ts;
    } else {
      var init, v := more[..|more| - 1], more[|more| - 1];
      assert more == init + [v];
      WholeTenthsAppend(init, v);
      MoreIsMore(ts, init, size, u);
      OnTradesAppend(ts + init, v, size, FieldOfTrade(u, size), SideOf(u));
      assert ts + init + [v] == ts + more;
    }
  }
}
