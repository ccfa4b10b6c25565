// backend/internal/aggregate/aggregator.go: candle start times, and how the timeframes nest.

module Timeframes {
  import opened Binning
  import opened Cells
  import opened Trades

  /** Seconds per candle; 0 for a timeframe the table does not know. */
  function TfSeconds(tf: string): nat {
    match tf
    case "1m" => 60
    case "5m" => 300
    case "15m" => 900
    case "30m" => 1800
    case "1h" => 3600
    case "4h" => 14400
    case _ => 0
  }

  /** Go's integer division, which truncates toward zero. */
  function Quot(a: int, b: nat): int
    requires b > 0
  {
    if a >= 0 then a / b else -((-a) / b)
  }

  /** Candle open time (unix seconds) of a trade time in milliseconds. */
  function CandleTimeUnix(tradeTimeMs: int, tf: string): int {
    var secs := TfSeconds(tf);
    if secs == 0 then 0 else Quot(Quot(tradeTimeMs, 1000), secs) * secs
  }

  // ----- which seconds a candle holds -----

  /** The timeframes and their widths, in seconds. */
  ghost predicate IsWidth(tf: string, width: nat) {
    || (tf == "1m" && width == 60)
    || (tf == "5m" && width == 300)
    || (tf == "15m" && width == 900)
    || (tf == "30m" && width == 1800)
    || (tf == "1h" && width == 3600)
    || (tf == "4h" && width == 14400)
  }

  /** A candle starts on a multiple of its width and holds the seconds from there to the next one. Times
      before 1970 are truncated toward zero, so there a candle holds the seconds up to its name. */
  lemma CandleHolds(ms: int, tf: string, width: nat)
    requires IsWidth(tf, width)
    ensures width > 0 && CandleTimeUnix(ms, tf) % width == 0
    ensures ms >= 0 ==> CandleTimeUnix(ms, tf) <= ms / 1000 < CandleTimeUnix(ms, tf) + width
    ensures ms < 0 ==> CandleTimeUnix(ms, tf) - width < -((-ms) / 1000) <= CandleTimeUnix(ms, tf)
  {
    var sec := Quot(ms, 1000);
    var k := Quot(sec, width);
    WidthOf(tf, width);
    WholeMultiple(k, width);
    DivBounds(if sec >= 0 then sec else -sec, width);
  }

  /** From 1970 on, for each timeframe by name. */
  lemma SixTimeframes(ms: nat)
    ensures var c := CandleTimeUnix(ms, "1m"); c % 60 == 0 && c <= ms / 1000 < c + 60
    ensures var c := CandleTimeUnix(ms, "5m"); c % 300 == 0 && c <= ms / 1000 < c + 300
    ensures var c := CandleTimeUnix(ms, "15m"); c % 900 == 0 && c <= ms / 1000 < c + 900
    ensures var c := CandleTimeUnix(ms, "30m"); c % 1800 == 0 && c <= ms / 1000 < c + 1800
    ensures var c := CandleTimeUnix(ms, "1h"); c % 3600 == 0 && c <= ms / 1000 < c + 3600
    ensures var c := CandleTimeUnix(ms, "4h"); c % 14400 == 0 && c <= ms / 1000 < c + 14400
  {
    CandleHolds(ms, "1m", 60);
    CandleHolds(ms, "5m", 300);
    CandleHolds(ms, "15m", 900);
    CandleHolds(ms, "30m", 1800);
    CandleHolds(ms, "1h", 3600);
    CandleHolds(ms, "4h", 14400);
  }

  lemma WidthOf(tf: string, width: nat)
    requires IsWidth(tf, width)
    ensures width > 0 && TfSeconds(tf) == width
  {
  }

  lemma WholeMultiple(k: int, width: nat)
    requires width > 0
    ensures k * width % width == 0
  {
    IndexOfMultiple(k, width);
    DivBounds(k * width, width);
  }

  /** Any other timeframe puts every trade into the candle at 0. */
  lemma UnknownTimeframe(ms: int, tf: string)
    requires tf !in ["1m", "5m", "15m", "30m", "1h", "4h"]
    ensures CandleTimeUnix(ms, tf) == 0
  {
  }

  /** From 1970 on, a trade belongs to the candle at a multiple of the width exactly when its second lies
      in the interval of that width. */
  lemma CandleIsInterval(ms: int, tf: string, width: nat, start: int)
    requires IsWidth(tf, width) && ms >= 0 && width > 0 && start % width == 0
    ensures CandleTimeUnix(ms, tf) == start <==> start <= ms / 1000 < start + width
  {
    CandleHolds(ms, tf, width);
    var c := CandleTimeUnix(ms, tf);
    if start <= ms / 1000 < start + width {
      SameMultiple(c, start, ms / 1000, width);
    }
  }

  lemma SameMultiple(c: int, start: int, sec: int, width: nat)
    requires width > 0 && c % width == 0 && start % width == 0
    requires c <= sec < c + width && start <= sec < start + width
    ensures c == start
  {
    DivBounds(c, width);
    DivBounds(start, width);
    DivUnique(sec, width, c / width);
    DivUnique(sec, width, start / width);
  }

  // ----- nesting -----

  /** Of two known timeframes the shorter divides the longer. */
  lemma TimeframesDivide(fine: string, coarse: string) returns (g: nat)
    requires 0 < TfSeconds(fine) <= TfSeconds(coarse)
    ensures g > 0 && TfSeconds(coarse) == g * TfSeconds(fine)
  {
    g := TfSeconds(coarse) / TfSeconds(fine);
  }

  lemma QuotNests(a: int, f: nat, g: nat)
    requires f > 0 && g > 0
    ensures g * f > 0 && Quot(Quot(a, f) * f, g * f) == Quot(a, g * f)
  {
    if a >= 0 {
      NonnegativeNests(a, f, g);
    } else {
      NonnegativeNests(-a, f, g);
      assert Quot(a, f) * f == -((-a) / f * f);
    }
  }

  lemma NonnegativeNests(a: nat, f: nat, g: nat)
    requires f > 0 && g > 0
    ensures g * f > 0 && a / f * f >= 0 && a / f * f / (g * f) == a / (g * f)
  {
    DivDiv(a, f, g);
    DivDiv(a / f * f, f, g);
    MulMonotone(0, a / f, f);
    DivUnique(a / f * f, f, a / f);
  }

  /** The coarse candle of a trade is the coarse candle of its fine candle's start. Holds for
      negative times too. */
  lemma CandlesNest(ms: int, fine: string, coarse: string)
    requires 0 < TfSeconds(fine) <= TfSeconds(coarse)
    ensures CandleTimeUnix(CandleTimeUnix(ms, fine) * 1000, coarse) == CandleTimeUnix(ms, coarse)
  {
    hide TfSeconds;
    var g := TimeframesDivide(fine, coarse);
    var f := TfSeconds(fine);
    var a := Quot(ms, 1000);
    QuotNests(a, f, g);
    Milliseconds(Quot(a, f) * f);
  }

  lemma Milliseconds(s: int)
    ensures Quot(s * 1000, 1000) == s
  {
  }

  /** The six widths nest in each other, by name. */
  lemma WidthsDivide(fine: string, coarse: string, f: nat, c: nat)
    requires IsWidth(fine, f) && IsWidth(coarse, c) && f <= c
    ensures f > 0 && c % f == 0
  {
  }

  // ----- volumes per candle -----

  /** The trades of one candle, in order. */
  function InCandle(ts: seq<Trade>, tf: string, candleTime: int): seq<Trade> {
    if ts == [] then []
    else
      var t := ts[|ts| - 1];
      InCandle(ts[..|ts| - 1], tf, candleTime)
      + if CandleTimeUnix(t.timeMs, tf) == candleTime then [t] else []
  }

  lemma InCandleAppend(ts: seq<Trade>, t: Trade, tf: string, candleTime: int)
    ensures InCandle(ts + [t], tf, candleTime) ==
      InCandle(ts, tf, candleTime) + if CandleTimeUnix(t.timeMs, tf) == candleTime then [t] else []
  {
    assert (ts + [t])[..|ts + [t]| - 1] == ts;
  }

  lemma {:induction false} InCandleMembers(ts: seq<Trade>, tf: string, candleTime: int, t: Trade)
    ensures t in InCandle(ts, tf, candleTime) <==> t in ts && CandleTimeUnix(t.timeMs, tf) == candleTime
  {
    hide CandleTimeUnix;
    if ts != [] {
      var init, last := ts[..|ts| - 1], ts[|ts| - 1];
      assert ts == init + [last];
      InCandleMembers(init, tf, candleTime, t);
    }
  }

  /** Volume of a region, summed over the candles that start at `times`. */
  function CandleSum(times: seq<int>, ts: seq<Trade>, tf: string, side: Side, region: Region): real {
    if times == [] then 0.0
    else
      CandleSum(times[..|times| - 1], ts, tf, side, region)
      + Total(AsCells(InCandle(ts, tf, times[|times| - 1])), side, region)
  }

  ghost predicate DistinctTimes(times: seq<int>) {
    forall i, j :: 0 <= i < j < |times| ==> times[i] != times[j]
  }

  lemma {:induction false} CandleSumAppend(times: seq<int>, ts: seq<Trade>, t: Trade, tf: string, side: Side,
                                           region: Region)
    requires DistinctTimes(times)
    ensures CandleSum(times, ts + [t], tf, side, region) == CandleSum(times, ts, tf, side, region)
         + if CandleTimeUnix(t.timeMs, tf) in times then Share(AsCell(t), side, region) else 0.0
  {
    hide CandleTimeUnix, Share, AsCell;
    if times != [] {
      var init, ct := times[..|times| - 1], times[|times| - 1];
      assert times == init + [ct] && ct !in init;
      CandleSumAppend(init, ts, t, tf, side, region);
      CandleTotalAppend(ct, ts, t, tf, side, region);
    }
  }

  lemma CandleTotalAppend(ct: int, ts: seq<Trade>, t: Trade, tf: string, side: Side, region: Region)
    ensures Total(AsCells(InCandle(ts + [t], tf, ct)), side, region)
         == Total(AsCells(InCandle(ts, tf, ct)), side, region)
         + if CandleTimeUnix(t.timeMs, tf) == ct then Share(AsCell(t), side, region) else 0.0
  {
    hide CandleTimeUnix, Share, AsCell;
    var sel := InCandle(ts, tf, ct);
    InCandleAppend(ts, t, tf, ct);
    assert sel + [] == sel;
    IdsAppend(sel, t);
    TotalAppend(AsCells(sel), AsCell(t), side, region);
  }

  lemma {:induction false} NoCandles(times: seq<int>, tf: string, side: Side, region: Region)
    ensures CandleSum(times, [], tf, side, region) == 0.0
  {
    if times != [] {
      NoCandles(times[..|times| - 1], tf, side, region);
    }
  }

  /** Every timeframe carries the full traded volume: summed over the candles the trades fall into,
      nothing is lost and nothing is counted twice. */
  lemma {:induction false} CandlesPartition(times: seq<int>, ts: seq<Trade>, tf: string, side: Side, region: Region)
    requires DistinctTimes(times)
    requires forall t :: t in ts ==> CandleTimeUnix(t.timeMs, tf) in times
    ensures CandleSum(times, ts, tf, side, region) == Total(AsCells(ts), side, region)
  {
    hide CandleTimeUnix, Share, AsCell;
    if ts == [] {
      NoCandles(times, tf, side, region);
    } else {
      var init, t := ts[..|ts| - 1], ts[|ts| - 1];
      assert ts == init + [t] && t in ts;
      forall u | u in init ensures CandleTimeUnix(u.timeMs, tf) in times {
        assert u in ts;
      }
      CandlesPartition(times, init, tf, side, region);
      CandleSumAppend(times, init, t, tf, side, region);
      IdsAppend(init, t);
      TotalAppend(AsCells(init), AsCell(t), side, region);
    }
  }

  // ----- a coarse candle is the sum of its fine candles -----

  /** Start times of the g fine candles of f seconds inside the coarse candle starting at `start`. */
  function Slots(start: int, f: nat, g: nat): (times: seq<int>)
    ensures |times| == g && forall i :: 0 <= i < g ==> times[i] == start + i * f
  {
    seq(g, i => start + i * f)
  }

  lemma SlotsDistinct(start: int, f: nat, g: nat)
    requires f > 0
    ensures DistinctTimes(Slots(start, f, g))
  {
    hide Slots;
    forall i, j | 0 <= i < j < g ensures Slots(start, f, g)[i] != Slots(start, f, g)[j] {
      LaterSlot(start, i, j, f);
    }
  }

  lemma LaterSlot(start: int, i: int, j: int, f: nat)
    requires f > 0 && i < j
    ensures start + i * f < start + j * f
  {
    MulMonotone(i + 1, j, f);
  }

  /** A trade's fine candle is one of the slots exactly when its coarse candle is theirs. */
  lemma SlotOfTrade(ms: nat, fine: string, coarse: string, g: nat, start: int)
    requires 0 < TfSeconds(fine) <= TfSeconds(coarse) && TfSeconds(coarse) == g * TfSeconds(fine)
    requires start == CandleTimeUnix(start * 1000, coarse) && start >= 0
    ensures CandleTimeUnix(ms, fine) in Slots(start, TfSeconds(fine), g) <==> CandleTimeUnix(ms, coarse) == start
  {
    hide TfSeconds;
    var f, c := TfSeconds(fine), TfSeconds(coarse);
    var a := ms / 1000;
    var k, m := a / f, start / c;
    Milliseconds(start);
    assert start == m * c;
    DivDiv(a, f, g);
    Reassociate(m, g, f);
    var slots := Slots(start, f, g);
    if k * f in slots {
      var i :| 0 <= i < g && slots[i] == k * f;
      SlotIndex(k, m, g, f, i);
      DivUnique(k, g, m);
    }
    if a / c == m {
      DivBounds(k, g);
      assert k * f == m * c + (k - m * g) * f;
      assert slots[k - m * g] == k * f;
    }
  }

  lemma SlotIndex(k: int, m: int, g: nat, f: nat, i: nat)
    requires f > 0 && k * f == m * (g * f) + i * f
    ensures k == m * g + i
  {
    Reassociate(m, g, f);
    assert (m * g + i) * f == m * g * f + i * f;
    if k < m * g + i {
      MulMonotone(k + 1, m * g + i, f);
    } else if k > m * g + i {
      MulMonotone(m * g + i + 1, k, f);
    }
  }

  lemma {:induction false} CandleWithinCandle(ts: seq<Trade>, fine: string, coarse: string, g: nat, start: int,
                                              slot: int)
    requires 0 < TfSeconds(fine) <= TfSeconds(coarse) && TfSeconds(coarse) == g * TfSeconds(fine)
    requires start == CandleTimeUnix(start * 1000, coarse) && start >= 0
    requires slot in Slots(start, TfSeconds(fine), g)
    requires forall t :: t in ts ==> t.timeMs >= 0
    ensures InCandle(InCandle(ts, coarse, start), fine, slot) == InCandle(ts, fine, slot)
  {
    hide TfSeconds, CandleTimeUnix;
    if ts != [] {
      var init, t := ts[..|ts| - 1], ts[|ts| - 1];
      assert ts == init + [t] && t in ts;
      CandleWithinCandle(init, fine, coarse, g, start, slot);
      SlotOfTrade(t.timeMs, fine, coarse, g, start);
      InCandleAppend(InCandle(init, coarse, start), t, fine, slot);
      InCandleAppend(init, t, coarse, start);
      InCandleAppend(init, t, fine, slot);
      assert InCandle(init, coarse, start) + [] == InCandle(init, coarse, start);
      assert InCandle(init, fine, slot) + [] == InCandle(init, fine, slot);
    }
  }

  lemma {:induction false} SlotSums(times: seq<int>, all: seq<int>, ts: seq<Trade>, fine: string, coarse: string,
                                    g: nat, start: int, side: Side, region: Region)
    requires 0 < TfSeconds(fine) <= TfSeconds(coarse) && TfSeconds(coarse) == g * TfSeconds(fine)
    requires start == CandleTimeUnix(start * 1000, coarse) && start >= 0
    requires all == Slots(start, TfSeconds(fine), g) && forall i :: 0 <= i < |times| ==> times[i] in all
    requires forall t :: t in ts ==> t.timeMs >= 0
    ensures CandleSum(times, InCandle(ts, coarse, start), fine, side, region)
         == CandleSum(times, ts, fine, side, region)
  {
    hide TfSeconds, CandleTimeUnix;
    if times != [] {
      SlotSums(times[..|times| - 1], all, ts, fine, coarse, g, start, side, region);
      CandleWithinCandle(ts, fine, coarse, g, start, times[|times| - 1]);
    }
  }

  /** Before rounding, each bin of a coarse candle holds the sum of that bin over its fine candles. */
  lemma CoarseCandleIsSumOfFine(ts: seq<Trade>, fine: string, coarse: string, g: nat, start: int, side: Side,
                                region: Region)
    requires 0 < TfSeconds(fine) <= TfSeconds(coarse) && TfSeconds(coarse) == g * TfSeconds(fine)
    requires start == CandleTimeUnix(start * 1000, coarse) && start >= 0
    requires forall t :: t in ts ==> t.timeMs >= 0
    ensures Total(AsCells(InCandle(ts, coarse, start)), side, region)
         == CandleSum(Slots(start, TfSeconds(fine), g), ts, fine, side, region)
  {
    hide TfSeconds, CandleTimeUnix;
    var slots, sel := Slots(start, TfSeconds(fine), g), InCandle(ts, coarse, start);
    SlotsDistinct(start, TfSeconds(fine), g);
    forall t | t in sel ensures CandleTimeUnix(t.timeMs, fine) in slots {
      InCandleMembers(ts, coarse, start, t);
      SlotOfTrade(t.timeMs, fine, coarse, g, start);
    }
    CandlesPartition(slots, sel, fine, side, region);
    SlotSums(slots, slots, ts, fine, coarse, g, start, side, region);
  }
}
