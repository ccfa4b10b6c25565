// Exchange trades, what deduplication keeps of a stream of arrivals, and gap accounting over it.

module Trades {
  import Binning
  import Cells

  datatype Trade = Trade(id: int, price: Binning.Price, qty: real, timeMs: int, isBuyerMaker: bool)

  /** A trade as a contribution: the maker side decides between bid and ask. */
  function AsCell(t: Trade): Cells.Cell {
    if t.isBuyerMaker then Cells.Cell(t.price, t.qty, 0.0) else Cells.Cell(t.price, 0.0, t.qty)
  }

  function AsCells(ts: seq<Trade>): (cs: seq<Cells.Cell>)
    ensures |cs| == |ts| && forall i :: 0 <= i < |ts| ==> cs[i] == AsCell(ts[i])
  {
    seq(|ts|, i requires 0 <= i < |ts| => AsCell(ts[i]))
  }

  /** Traded quantity at prices from lo up to but excluding hi, buyer-maker trades or the others. */
  function QtyIn(ts: seq<Trade>, isBuyerMaker: bool, lo: Binning.Price, hi: Binning.Price): real {
    if ts == [] then 0.0
    else
      var t := ts[|ts| - 1];
      QtyIn(ts[..|ts| - 1], isBuyerMaker, lo, hi)
      + if t.isBuyerMaker == isBuyerMaker && lo <= t.price < hi then t.qty else 0.0
  }

  /** Buyer-maker trades are the bids, all others the asks. */
  lemma {:induction false} SidesOfTrades(ts: seq<Trade>, lo: Binning.Price, hi: Binning.Price)
    ensures Cells.BidIn(AsCells(ts), lo, hi) == QtyIn(ts, true, lo, hi)
    ensures Cells.AskIn(AsCells(ts), lo, hi) == QtyIn(ts, false, lo, hi)
  {
    if ts != [] {
      var init, t := ts[..|ts| - 1], ts[|ts| - 1];
      SidesOfTrades(init, lo, hi);
      assert AsCells(ts)[..|ts| - 1] == AsCells(init);
    }
  }

  function Ids(ts: seq<Trade>): set<int> {
    set t | t in ts :: t.id
  }

  ghost predicate DistinctIds(ts: seq<Trade>) {
    forall i, j :: 0 <= i < j < |ts| ==> ts[i].id != ts[j].id
  }

  ghost predicate AscendingIds(ts: seq<Trade>) {
    forall i, j :: 0 <= i < j < |ts| ==> ts[i].id < ts[j].id
  }

  ghost predicate PositiveIds(ts: seq<Trade>) {
    forall t :: t in ts ==> t.id > 0
  }

  /** The same ID always means the same trade. */
  ghost predicate Consistent(ts: seq<Trade>) {
    forall t, u :: t in ts && u in ts && t.id == u.id ==> t == u
  }

  /** Highest trade ID, never below 0: the value of `lastTradeID`. */
  function MaxId(ts: seq<Trade>): (m: int)
    ensures m >= 0
  {
    if ts == [] then 0
    else
      var m := MaxId(ts[..|ts| - 1]);
      if ts[|ts| - 1].id > m then ts[|ts| - 1].id else m
  }

  lemma {:induction false} MaxIdIsHighest(ts: seq<Trade>)
    ensures forall id :: id in Ids(ts) ==> id <= MaxId(ts)
    ensures forall t :: t in ts ==> t.id <= MaxId(ts)
  {
    if ts != [] {
      MaxIdIsHighest(ts[..|ts| - 1]);
    }
  }

  lemma IdsAppend(ts: seq<Trade>, t: Trade)
    ensures Ids(ts + [t]) == Ids(ts) + {t.id}
    ensures MaxId(ts + [t]) == if t.id > MaxId(ts) then t.id else MaxId(ts)
    ensures AsCells(ts + [t]) == AsCells(ts) + [AsCell(t)]
  {
    var all := ts + [t];
    assert all[..|all| - 1] == ts;
    forall x | x in Ids(ts) + {t.id} ensures x in Ids(all) {
      if x != t.id {
        var u :| u in ts && u.id == x;
        assert u in all;
      } else {
        assert t in all;
      }
    }
  }

  // ----- deduplication -----

  /** What a deduplicating consumer that already keeps `log` keeps after more arrivals: the first
      trade of every new ID is appended. */
  function Kept(log: seq<Trade>, arrivals: seq<Trade>): seq<Trade> {
    if arrivals == [] then log
    else
      var kept := Kept(log, arrivals[..|arrivals| - 1]);
      var t := arrivals[|arrivals| - 1];
      if t.id in Ids(kept) then kept else kept + [t]
  }

  lemma KeptAppend(log: seq<Trade>, arrivals: seq<Trade>, t: Trade)
    ensures Kept(log, arrivals + [t]) ==
      if t.id in Ids(Kept(log, arrivals)) then Kept(log, arrivals) else Kept(log, arrivals) + [t]
  {
    assert (arrivals + [t])[..|arrivals + [t]| - 1] == arrivals;
  }

  lemma {:induction false} KeptIds(log: seq<Trade>, arrivals: seq<Trade>)
    requires DistinctIds(log)
    ensures Ids(Kept(log, arrivals)) == Ids(log) + Ids(arrivals)
    ensures DistinctIds(Kept(log, arrivals))
    ensures forall t :: t in Kept(log, arrivals) ==> t in log || t in arrivals
    ensures log <= Kept(log, arrivals)
  {
    if arrivals != [] {
      var init, t := arrivals[..|arrivals| - 1], arrivals[|arrivals| - 1];
      assert arrivals == init + [t];
      KeptIds(log, init);
      IdsAppend(init, t);
      if t.id !in Ids(Kept(log, init)) {
        LogGrows(Kept(log, init), t);
      }
    }
  }

  lemma LogGrows(log: seq<Trade>, t: Trade)
    requires DistinctIds(log) && t.id !in Ids(log)
    ensures DistinctIds(log + [t])
    ensures Ids(log + [t]) == Ids(log) + {t.id}
    ensures MaxId(log + [t]) == if t.id > MaxId(log) then t.id else MaxId(log)
    ensures AsCells(log + [t]) == AsCells(log) + [AsCell(t)]
  {
    IdsAppend(log, t);
    forall i | 0 <= i < |log| ensures log[i].id != t.id {
      assert log[i] in log;
    }
  }

  /** Two duplicate-free selections of the same consistent trades with equal IDs are permutations. */
  lemma SameIdsSameTrades(a: seq<Trade>, b: seq<Trade>)
    requires DistinctIds(a) && DistinctIds(b) && Ids(a) == Ids(b) && Consistent(a + b)
    ensures multiset(a) == multiset(b)
  {
    forall t ensures multiset(a)[t] == multiset(b)[t] {
      DistinctCount(a, t);
      DistinctCount(b, t);
      MemberEitherWay(a, b, t);
      MemberEitherWay(b, a, t);
    }
  }

  lemma MemberEitherWay(a: seq<Trade>, b: seq<Trade>, t: Trade)
    requires Ids(a) == Ids(b)
    requires forall t, u :: t in a && u in b && t.id == u.id ==> t == u
    ensures t in a ==> t in b
  {
    if t in a {
      assert t.id in Ids(a);
      var u :| u in b && u.id == t.id;
    }
  }

  lemma {:induction false} DistinctCount(a: seq<Trade>, t: Trade)
    requires DistinctIds(a)
    ensures multiset(a)[t] == if t in a then 1 else 0
  {
    if a != [] {
      var init, last := a[..|a| - 1], a[|a| - 1];
      assert a == init + [last];
      DistinctCount(init, t);
      forall i | 0 <= i < |init| ensures init[i] != last {
        assert a[i].id != a[|a| - 1].id;
      }
    }
  }

  // ----- gaps -----

  /** A range of trade IDs reported missing. */
  datatype Gap = Gap(lo: int, hi: int) {
    predicate Contains(id: int) {
      lo <= id <= hi
    }
  }

  ghost predicate SomeGapContains(gaps: seq<Gap>, id: int) {
    exists i :: 0 <= i < |gaps| && gaps[i].Contains(id)
  }

  /** Every ID in [first, last] was seen or lies in a gap; the gaps are strictly inside that
      interval, in ascending order and pairwise disjoint. */
  ghost predicate CoveredIds(first: int, last: int, seen: set<int>, gaps: seq<Gap>) {
    && (forall i :: 0 <= i < |gaps| ==> first < gaps[i].lo <= gaps[i].hi < last)
    && (forall i, j :: 0 <= i < j < |gaps| ==> gaps[i].hi < gaps[j].lo)
    && (forall id :: first <= id <= last ==> id in seen || SomeGapContains(gaps, id))
  }

  /** The same for everything kept of a stream: from its first trade to its highest ID. */
  ghost predicate Covered(kept: seq<Trade>, gaps: seq<Gap>) {
    if kept == [] then gaps == [] else CoveredIds(kept[0].id, MaxId(kept), Ids(kept), gaps)
  }

  /** The gap that the arrival of `id` reveals when `last` is the highest ID so far. */
  function NewGaps(last: int, id: int): seq<Gap> {
    if last > 0 && id > last + 1 then [Gap(last + 1, id - 1)] else []
  }

  lemma CoverageStep(kept: seq<Trade>, gaps: seq<Gap>, t: Trade)
    requires Covered(kept, gaps) && PositiveIds(kept + [t])
    ensures Covered(kept + [t], gaps + NewGaps(MaxId(kept), t.id))
  {
    hide CoveredIds, MaxId, Ids, AsCells;
    IdsAppend(kept, t);
    assert t in kept + [t];
    if kept == [] {
      FirstIsCovered(t);
      assert kept + [t] == [t];
    } else {
      MaxIdIsHighest(kept);
      assert kept[0] in kept && kept[0] in kept + [t];
      CoveredIdsStep(kept[0].id, MaxId(kept), Ids(kept), gaps, t.id);
      assert (kept + [t])[0] == kept[0];
    }
  }

  lemma FirstIsCovered(t: Trade)
    requires t.id > 0
    ensures Covered([t], [] + NewGaps(MaxId([]), t.id))
  {
    assert [t][..0] == [] && MaxId([t]) == t.id && t in [t];
    assert [] + NewGaps(MaxId([]), t.id) == [];
  }

  lemma CoveredIdsStep(first: int, last: int, seen: set<int>, gaps: seq<Gap>, id: int)
    requires CoveredIds(first, last, seen, gaps) && 0 < first <= last
    ensures CoveredIds(first, if id > last then id else last, seen + {id}, gaps + NewGaps(last, id))
  {
    forall x | first <= x <= last || last < x <= id
      ensures x in seen + {id} || SomeGapContains(gaps + NewGaps(last, id), x)
    {
      MoreGaps(gaps, NewGaps(last, id), x);
    }
  }

  lemma MoreGaps(a: seq<Gap>, b: seq<Gap>, id: int)
    ensures SomeGapContains(a, id) || SomeGapContains(b, id) ==> SomeGapContains(a + b, id)
    ensures |b| == 1 && b[0].Contains(id) ==> SomeGapContains(a + b, id)
  {
    if i :| 0 <= i < |a| && a[i].Contains(id) {
      assert (a + b)[i].Contains(id);
    } else if i :| 0 <= i < |b| && b[i].Contains(id) {
      assert (a + b)[|a| + i].Contains(id);
    }
  }

  /** Once every reported gap has been filled nothing between the first and the highest ID is missing. */
  lemma FilledGapsLeaveNoHole(kept: seq<Trade>, gaps: seq<Gap>, id: int)
    requires Covered(kept, gaps) && kept != [] && kept[0].id <= id <= MaxId(kept)
    requires forall i, x :: 0 <= i < |gaps| && gaps[i].Contains(x) ==> x in Ids(kept)
    ensures id in Ids(kept)
  {
  }

  /** An ID of the interval that was not seen lies in exactly one of the reported gaps. */
  lemma UnseenIdHasOneGap(kept: seq<Trade>, gaps: seq<Gap>, id: int) returns (i: nat)
    requires Covered(kept, gaps) && kept != [] && kept[0].id <= id <= MaxId(kept) && id !in Ids(kept)
    ensures i < |gaps| && gaps[i].Contains(id)
    ensures forall j :: 0 <= j < |gaps| && gaps[j].Contains(id) ==> j == i
  {
    assert SomeGapContains(gaps, id);
    i :| 0 <= i < |gaps| && gaps[i].Contains(id);
    forall j | 0 <= j < |gaps| && j != i ensures !gaps[j].Contains(id) {
      assert i < j ==> gaps[i].hi < gaps[j].lo;
      assert j < i ==> gaps[j].hi < gaps[i].lo;
    }
  }
}
