// backend/internal/ingest/binance.go: the paging loop that fetches missing trades, over an oracle for
// the exchange's REST interface.

module GapFilling {
  import opened Trades

  datatype FetchResult = Batch(trades: seq<Trade>) | RateLimited | Failed

  /** The answer to the n-th request of a run, which asks for trades from an ID on. */
  type Fetch = (nat, int) -> FetchResult

  /** How many of the exchange's trades have an ID below `from`. */
  function Below(exchange: seq<Trade>, from: int): (n: nat)
    ensures n <= |exchange|
  {
    if exchange == [] then 0
    else if exchange[|exchange| - 1].id < from then |exchange|
    else Below(exchange[..|exchange| - 1], from)
  }

  lemma {:induction false} BelowSplits(exchange: seq<Trade>, from: int, i: nat)
    requires AscendingIds(exchange) && i < |exchange|
    ensures exchange[i].id < from <==> i < Below(exchange, from)
  {
    var last := |exchange| - 1;
    if exchange[last].id >= from && i < last {
      BelowSplits(exchange[..last], from, i);
    }
  }

  /** `n` is the number below `from` when the n-th trade is the first at or above it. */
  lemma BelowIs(exchange: seq<Trade>, from: int, n: nat)
    requires AscendingIds(exchange) && n <= |exchange|
    requires n > 0 ==> exchange[n - 1].id < from
    requires n < |exchange| ==> from <= exchange[n].id
    ensures Below(exchange, from) == n
  {
    if n > 0 {
      BelowSplits(exchange, from, n - 1);
    }
    if n < |exchange| {
      BelowSplits(exchange, from, n);
    }
  }

  lemma BelowMonotone(exchange: seq<Trade>, a: int, b: int)
    requires AscendingIds(exchange) && a <= b
    ensures Below(exchange, a) <= Below(exchange, b)
  {
    var n := Below(exchange, b);
    if n < |exchange| {
      BelowSplits(exchange, b, n);
      BelowSplits(exchange, a, n);
    }
  }

  /** The exchange's trades with IDs in [lo, hi]. */
  function Between(exchange: seq<Trade>, lo: int, hi: int): seq<Trade> {
    var a, b := Below(exchange, lo), Below(exchange, hi + 1);
    if a <= b then exchange[a..b] else []
  }

  /** A batch is the exchange's next trades from the requested ID on, and empty only past the end. */
  ghost predicate Serves(batch: seq<Trade>, exchange: seq<Trade>, from: int) {
    var n := Below(exchange, from);
    && |batch| <= |exchange| - n
    && batch == exchange[n..n + |batch|]
    && (batch == [] ==> n == |exchange|)
  }

  ghost predicate Faithful(fetch: Fetch, exchange: seq<Trade>) {
    forall n, from :: fetch(n, from).Batch? ==> Serves(fetch(n, from).trades, exchange, from)
  }

  /** One request, and up to three more while the answer is a rate limit. `calls` counts requests. */
  method FetchWithRetries(fetch: Fetch, from: int, calls0: nat) returns (r: FetchResult, calls: nat)
    ensures calls0 < calls <= calls0 + 4
    ensures r == fetch(calls - 1, from)
    ensures forall n :: calls0 <= n < calls - 1 ==> fetch(n, from).RateLimited?
    ensures r.RateLimited? ==> calls == calls0 + 4
  {
    r, calls := fetch(calls0, from), calls0 + 1;
    var retry := 0;
    while r.RateLimited? && retry < 3
      invariant 0 <= retry <= 3 && calls == calls0 + 1 + retry
      invariant r == fetch(calls - 1, from)
      invariant forall n :: calls0 <= n < calls - 1 ==> fetch(n, from).RateLimited?
    {
      r, calls := fetch(calls, from), calls + 1;
      retry := retry + 1;
    }
  }

  /** Batches ascend and start at the requested ID or later. */
  ghost predicate Ordered(fetch: Fetch) {
    forall n, from :: fetch(n, from).Batch? ==> StartsAt(fetch(n, from).trades, from)
  }

  ghost predicate StartsAt(trades: seq<Trade>, from: int) {
    AscendingIds(trades) && forall t :: t in trades ==> from <= t.id
  }

  /** An oracle faithful to an ascending exchange is ordered. */
  lemma FaithfulIsOrdered(fetch: Fetch, exchange: seq<Trade>)
    requires AscendingIds(exchange) && Faithful(fetch, exchange)
    ensures Ordered(fetch)
  {
    hide AscendingIds;
    forall n, from | fetch(n, from).Batch? ensures StartsAt(fetch(n, from).trades, from) {
      ServedStartsAt(fetch(n, from).trades, exchange, from);
    }
  }

  lemma ServedStartsAt(batch: seq<Trade>, exchange: seq<Trade>, from: int)
    requires AscendingIds(exchange) && Serves(batch, exchange, from)
    ensures StartsAt(batch, from)
  {
    var n := Below(exchange, from);
    forall i | 0 <= i < |batch| ensures batch[i] == exchange[n + i] && from <= batch[i].id {
      BelowSplits(exchange, from, n + i);
    }
  }

  /** Append a batch to `all` up to `end`; `past` when a trade beyond `end` stops the fill. */
  method TakeBatch(batch: seq<Trade>, end: int, all: seq<Trade>, current: int)
    returns (all': seq<Trade>, current': int, past: bool, ghost taken: nat)
    requires StartsAt(batch, current)
    ensures taken <= |batch| && all' == all + batch[..taken]
    ensures forall i :: 0 <= i < taken ==> batch[i].id <= end
    ensures current' == if taken > 0 then batch[taken - 1].id + 1 else current
    ensures if past then taken < |batch| && batch[taken].id > end else taken == |batch|
  {
    all', current', past, taken := all, current, false, 0;
    assert all + batch[..0] == all;
    for j := 0 to |batch|
      invariant taken == j && all' == all + batch[..j]
      invariant forall i :: 0 <= i < j ==> batch[i].id <= end
      invariant current' == if j > 0 then batch[j - 1].id + 1 else current
    {
      var t := batch[j];
      if t.id > end {
        past := true;
        return;
      }
      assert all + batch[..j + 1] == all + batch[..j] + [t];
      all' := all' + [t];
      current' := t.id + 1;
      taken := j + 1;
    }
  }

  /** `all` holds ascending IDs from `start` on, all of them before `current`. */
  ghost predicate InRange(all: seq<Trade>, start: int, current: int) {
    AscendingIds(all) && forall t :: t in all ==> start <= t.id < current
  }

  lemma TakenInRange(all: seq<Trade>, start: int, current: int, batch: seq<Trade>, taken: nat)
    requires InRange(all, start, current) && StartsAt(batch, current) && start <= current && taken <= |batch|
    ensures InRange(all + batch[..taken], start, if taken > 0 then batch[taken - 1].id + 1 else current)
    ensures taken > 0 ==> current < batch[taken - 1].id + 1
  {
    var more := batch[..taken];
    if taken == 0 {
      assert all + more == all;
    } else {
      assert batch[taken - 1] in batch;
      forall i | 0 <= i < |all| ensures all[i].id < current {
        assert all[i] in all;
      }
      forall i | 0 <= i < taken ensures current <= batch[i].id <= batch[taken - 1].id {
        assert batch[i] in batch;
      }
    }
  }

  /** What is taken of the exchange's next trades are the exchange's next trades. */
  lemma TakenFromExchange(exchange: seq<Trade>, n0: nat, current: int, batch: seq<Trade>, taken: nat, end: int)
    requires AscendingIds(exchange) && Serves(batch, exchange, current) && n0 <= Below(exchange, current)
    requires taken <= |batch| && current <= end
    requires taken < |batch| ==> batch[taken].id > end
    requires forall i :: 0 <= i < taken ==> batch[i].id <= end
    ensures var current' := if taken > 0 then batch[taken - 1].id + 1 else current;
            && n0 <= Below(exchange, current')
            && exchange[n0..Below(exchange, current)] + batch[..taken] == exchange[n0..Below(exchange, current')]
            && (taken < |batch| ==> Below(exchange, current') == Below(exchange, end + 1))
  {
    var n := Below(exchange, current);
    var current' := if taken > 0 then batch[taken - 1].id + 1 else current;
    hide Below;
    assert exchange[n0..n] + batch[..taken] == exchange[n0..n + taken] by {
      assert batch[..taken] == exchange[n..n + taken];
    }
    if taken > 0 {
      assert batch[taken - 1] == exchange[n + taken - 1];
      assert n + taken < |exchange| ==> exchange[n + taken - 1].id < exchange[n + taken].id;
      BelowIs(exchange, current', n + taken);
    }
    if taken < |batch| {
      assert batch[taken] == exchange[n + taken];
      if n + taken > 0 {
        BeforeTaken(exchange, current, n, batch, taken, end);
      }
      BelowIs(exchange, end + 1, n + taken);
    }
  }

  lemma BeforeTaken(exchange: seq<Trade>, current: int, n: nat, batch: seq<Trade>, taken: nat, end: int)
    requires AscendingIds(exchange) && n == Below(exchange, current) && current <= end
    requires 0 < n + taken <= |exchange| && taken <= |batch| <= |exchange| - n && batch == exchange[n..n + |batch|]
    requires forall i :: 0 <= i < taken ==> batch[i].id <= end
    ensures exchange[n + taken - 1].id < end + 1
  {
    if taken > 0 {
      assert batch[taken - 1] == exchange[n + taken - 1];
    } else {
      BelowSplits(exchange, current, n - 1);
    }
  }

  /** Fetch the trades with IDs in [start, end]. `ok` is false where the source returns an error;
      `gaveUp` marks the partial result it returns, without an error, when a rate limit persists.
      `asked` is the ID of the last request. For any ordered oracle this ends with ascending trades in
      the range; for one faithful to an exchange they are a prefix of the exchange's. */
  method FillGap(fetch: Fetch, start: int, end: int, calls0: nat, ghost exchange: seq<Trade>)
    returns (all: seq<Trade>, ok: bool, gaveUp: bool, calls: nat, ghost asked: int)
    requires Ordered(fetch)
    ensures calls >= calls0 && AscendingIds(all) && forall t :: t in all ==> start <= t.id <= end
    ensures AscendingIds(exchange) && Faithful(fetch, exchange) ==> all <= Between(exchange, start, end)
    ensures AscendingIds(exchange) && Faithful(fetch, exchange) && ok && !gaveUp ==>
              all == Between(exchange, start, end)
    ensures !ok ==> all == [] && calls > calls0 && fetch(calls - 1, asked).Failed?
    ensures AscendingIds(exchange) && Faithful(fetch, exchange) && gaveUp ==>
              all == Between(exchange, start, asked - 1)
    ensures !ok || gaveUp ==> start <= asked <= end
    ensures gaveUp ==> ok && calls > calls0 + 1
    ensures gaveUp ==> fetch(calls - 2, asked).RateLimited? && !fetch(calls - 1, asked).Batch?
  {
    hide AscendingIds, Faithful, Serves, Between;
    all, ok, gaveUp, calls, asked := [], true, false, calls0, start;
    var current := start;
    ghost var honest := AscendingIds(exchange) && Faithful(fetch, exchange);
    ghost var n0 := Below(exchange, start);
    NoneInRange(start);
    if start > end && honest {
      BelowMonotone(exchange, end + 1, start);
    }
    while current <= end
      invariant start <= current && if start <= end then current <= end + 1 else current == start
      invariant InRange(all, start, current)
      invariant honest ==> n0 <= Below(exchange, current) && all == exchange[n0..Below(exchange, current)]
      invariant calls >= calls0 && ok && !gaveUp
      decreases end - current
    {
      if honest {
        BelowMonotone(exchange, current, end + 1);
        FetchedSoFar(exchange, start, current, end, all);
      }
      var first := calls;
      var r;
      r, calls := FetchWithRetries(fetch, current, first);
      asked := current;
      if !r.Batch? {
        if calls == first + 1 {
          NoneInRange(start);
          return [], false, false, calls, asked;
        }
        return all, true, true, calls, asked;
      }
      if |r.trades| == 0 {
        if honest {
          EmptyMeansEnd(fetch, exchange, calls - 1, current);
          FetchedAll(exchange, start, current, end, all);
        }
        return;
      }
      var past;
      ghost var taken;
      ghost var before, allBefore := current, all;
      all, current, past, taken := TakeBatch(r.trades, end, all, current);
      TakenInRange(allBefore, start, before, r.trades, taken);
      if honest {
        assert Serves(r.trades, exchange, before) by {
          FaithfulBatch(fetch, exchange, calls - 1, before);
        }
        TakenFromExchange(exchange, n0, before, r.trades, taken, end);
        if past {
          FetchedAll(exchange, start, current, end, all);
        }
      }
      if past {
        return;
      }
    }
    if honest {
      if start <= end {
        FetchedAll(exchange, start, current, end, all);
      } else {
        NothingAsked(exchange, start, end);
      }
    }
  }

  lemma FetchedSoFar(exchange: seq<Trade>, start: int, current: int, end: int, all: seq<Trade>)
    requires Below(exchange, start) <= Below(exchange, current) <= Below(exchange, end + 1)
    requires all == exchange[Below(exchange, start)..Below(exchange, current)]
    ensures all <= Between(exchange, start, end) && all == Between(exchange, start, current - 1)
    ensures [] <= Between(exchange, start, end)
  {
  }

  lemma FetchedAll(exchange: seq<Trade>, start: int, current: int, end: int, all: seq<Trade>)
    requires Below(exchange, start) <= Below(exchange, current) == Below(exchange, end + 1)
    requires all == exchange[Below(exchange, start)..Below(exchange, current)]
    ensures all == Between(exchange, start, end)
  {
  }

  lemma NothingAsked(exchange: seq<Trade>, start: int, end: int)
    requires Below(exchange, end + 1) <= Below(exchange, start)
    ensures Between(exchange, start, end) == []
  {
  }

  lemma NoneInRange(start: int)
    ensures InRange([], start, start) && AscendingIds([])
  {
  }

  lemma FaithfulBatch(fetch: Fetch, exchange: seq<Trade>, n: nat, from: int)
    requires Faithful(fetch, exchange) && fetch(n, from).Batch?
    ensures Serves(fetch(n, from).trades, exchange, from)
  {
  }

  lemma EmptyMeansEnd(fetch: Fetch, exchange: seq<Trade>, n: nat, from: int)
    requires Faithful(fetch, exchange) && fetch(n, from) == Batch([])
    ensures Below(exchange, from) == |exchange|
  {
    FaithfulBatch(fetch, exchange, n, from);
  }

  lemma BetweenIndex(exchange: seq<Trade>, lo: int, hi: int, i: nat)
    requires AscendingIds(exchange) && i < |exchange|
    ensures Below(exchange, lo) <= i < Below(exchange, hi + 1) <==> lo <= exchange[i].id <= hi
  {
    BelowSplits(exchange, lo, i);
    BelowSplits(exchange, hi + 1, i);
  }

  /** A gap in an exchange history without holes is filled without holes. */
  lemma BetweenIds(exchange: seq<Trade>, lo: int, hi: int, id: int)
    requires AscendingIds(exchange)
    ensures id in Ids(Between(exchange, lo, hi)) <==> id in Ids(exchange) && lo <= id <= hi
  {
    hide AscendingIds, Below;
    var a, between := Below(exchange, lo), Between(exchange, lo, hi);
    if id in Ids(exchange) && lo <= id <= hi {
      var t :| t in exchange && t.id == id;
      var i :| 0 <= i < |exchange| && exchange[i] == t;
      BetweenIndex(exchange, lo, hi, i);
      assert between[i - a] == t;
      assert t in between;
    }
    if id in Ids(between) {
      var t :| t in between && t.id == id;
      var i :| 0 <= i < |between| && between[i] == t;
      BetweenIndex(exchange, lo, hi, a + i);
      assert exchange[a + i] == t;
      assert t in exchange;
    }
  }
}
