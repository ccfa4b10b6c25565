// backend/internal/aggregate/rounding.go and the two `round1` helpers.
// Quantities are exact reals; the digit string is what FormatFloat(.., 'f', -1, 64) prints.

module Rounding {
  import opened Digits

  function Abs(x: real): real {
    if x < 0.0 then -x else x
  }

  /** Half-away-from-zero rounding to one decimal: the arithmetic meaning of RoundHalfUp. */
  function RoundTenth(v: real): real {
    if v < 0.0 then -((-v * 10.0 + 0.5).Floor as real / 10.0)
    else (v * 10.0 + 0.5).Floor as real / 10.0
  }

  /** v is a whole number of tenths. */
  predicate IsTenths(v: real) {
    (v * 10.0).Floor as real == v * 10.0
  }

  lemma FloorIs(x: real, k: int)
    requires k as real <= x < k as real + 1.0
    ensures x.Floor == k
  {
  }

  lemma FloorMonotone(x: real, y: real)
    requires x <= y
    ensures x.Floor <= y.Floor
  {
  }

  // ----- what rounding guarantees -----

  lemma RoundWithin(v: real)
    ensures -0.05 <= RoundTenth(v) - v <= 0.05
    ensures IsTenths(RoundTenth(v))
  {
    var n := if v < 0.0 then -((-v * 10.0 + 0.5).Floor) else (v * 10.0 + 0.5).Floor;
    assert RoundTenth(v) * 10.0 == n as real;
  }

  /** r is a tenth nearest to v and, of two equally near, the one farther from zero. */
  ghost predicate Nearest(v: real, r: real) {
    && IsTenths(r) && -0.05 <= r - v <= 0.05
    && (r - v == 0.05 || r - v == -0.05 ==> Abs(r) > Abs(v))
  }

  lemma RoundsToNearest(v: real)
    ensures Nearest(v, RoundTenth(v))
  {
    RoundWithin(v);
  }

  lemma OneNearest(v: real, r: real, s: real)
    requires Nearest(v, r) && Nearest(v, s)
    ensures r == s
  {
    var m, n := (r * 10.0).Floor, (s * 10.0).Floor;
    assert r == m as real / 10.0 && s == n as real / 10.0;
    assert -1.0 <= (m - n) as real <= 1.0;
  }

  /** RoundTenth is the nearest tenth, halves away from zero, and nothing else. */
  lemma NearestTenthIff(v: real, r: real)
    ensures r == RoundTenth(v) <==> Nearest(v, r)
  {
    hide RoundTenth, Nearest;
    RoundsToNearest(v);
    if Nearest(v, r) {
      OneNearest(v, r, RoundTenth(v));
    }
  }

  lemma RoundExact(v: real)
    ensures RoundTenth(v) == v <==> IsTenths(v)
  {
    RoundWithin(v);
    if IsTenths(v) {
      var n := (v * 10.0).Floor;
      if v < 0.0 {
        assert -v * 10.0 == (-n) as real;
        FloorIs(-v * 10.0 + 0.5, -n);
      } else {
        FloorIs(v * 10.0 + 0.5, n);
      }
    }
  }

  lemma RoundIdempotent(v: real)
    ensures RoundTenth(RoundTenth(v)) == RoundTenth(v)
  {
    RoundWithin(v);
    RoundExact(RoundTenth(v));
  }

  lemma RoundMonotone(v: real, w: real)
    requires v <= w
    ensures RoundTenth(v) <= RoundTenth(w)
  {
    if v < 0.0 {
      FloorMonotone(0.5, -v * 10.0 + 0.5);
      if w < 0.0 {
        FloorMonotone(-w * 10.0 + 0.5, -v * 10.0 + 0.5);
      } else {
        FloorMonotone(0.5, w * 10.0 + 0.5);
      }
    } else {
      FloorMonotone(v * 10.0 + 0.5, w * 10.0 + 0.5);
    }
  }

  /** The examples of the project notes; for 0.85 they say 0.8. */
  lemma NotedExamples()
    ensures RoundTenth(5.1256) == 5.1 && RoundTenth(0.0125) == 0.0 && RoundTenth(0.85) == 0.9
  {
    FloorIs(5.1256 * 10.0 + 0.5, 51);
    FloorIs(0.0125 * 10.0 + 0.5, 0);
    FloorIs(0.85 * 10.0 + 0.5, 9);
  }

  lemma TenthsAdd(v: real, w: real)
    requires IsTenths(v) && IsTenths(w)
    ensures IsTenths(v + w)
  {
    var m, n := (v * 10.0).Floor, (w * 10.0).Floor;
    assert (v + w) * 10.0 == (m + n) as real;
  }

  // ----- the other roundings of the code base -----

  /** handlers.go: math.Round(v*10)/10, Go's half-away-from-zero rounding. */
  function ApiRound1(v: real): real {
    var x := v * 10.0;
    (if x < 0.0 then -((0.5 - x).Floor) else (x + 0.5).Floor) as real / 10.0
  }

  /** Conversion of a float to an integer truncates toward zero. */
  function Truncate(x: real): int {
    if x < 0.0 then -((-x).Floor) else x.Floor
  }

  /** store/query.go and ws/hub.go: float64(int(v*10+0.5))/10. */
  function StoreRound1(v: real): real {
    Truncate(v * 10.0 + 0.5) as real / 10.0
  }

  lemma ApiRoundAgrees(v: real)
    ensures ApiRound1(v) == RoundTenth(v)
  {
    assert 0.5 - v * 10.0 == -v * 10.0 + 0.5;
  }

  /** The truncating round1 agrees with RoundHalfUp exactly above -0.05. Candle deltas
      (ask minus bid) are often below that, and there it is one tenth too high. */
  lemma StoreRoundAgreesIff(v: real)
    ensures StoreRound1(v) == RoundTenth(v) <==> v > -0.05
    ensures v <= -0.05 ==> StoreRound1(v) == RoundTenth(v) + 0.1
  {
    if v < 0.0 {
      var u := -v * 10.0;
      if u < 0.5 {
        FloorIs(u + 0.5, 0);
        FloorIs(v * 10.0 + 0.5, 0);
      } else if u == 0.5 {
        FloorIs(u + 0.5, 1);
        FloorIs(v * 10.0 + 0.5, 0);
      } else {
        var n := (u - 0.5).Floor;
        FloorIs(u + 0.5, n + 1);
        assert -(v * 10.0 + 0.5) == u - 0.5;
      }
    }
  }

  /** From -0.05 up the nearest tenth, halves upward; below, one tenth more than that, halves excepted. */
  lemma StoreRoundMeans(v: real)
    ensures IsTenths(StoreRound1(v))
    ensures v >= -0.05 ==> StoreRound1(v) <= v + 0.05 < StoreRound1(v) + 0.1
    ensures v < -0.05 ==> StoreRound1(v) - 0.1 < v + 0.05 <= StoreRound1(v)
  {
    var n := Truncate(v * 10.0 + 0.5);
    assert StoreRound1(v) * 10.0 == n as real;
  }

  // ----- the digit-string algorithm -----

  const MAX_INT64 := 0x7FFF_FFFF_FFFF_FFFF

  /** Position of the first '.', or -1, as strings.Index reports it. */
  function DotIndex(s: string): (i: int)
    ensures -1 <= i < |s|
    ensures i >= 0 ==> s[i] == '.' && '.' !in s[..i]
    ensures i < 0 ==> '.' !in s
  {
    if s == "" then -1
    else if s[0] == '.' then 0
    else
      var r := DotIndex(s[1..]);
      if r < 0 then -1 else
      assert s[..r + 1] == [s[0]] + s[1..][..r];
      r + 1
  }

  /** s is the shortest plain decimal notation of x: digits, and, when x is not whole, a point and
      further digits the last of which is not zero. */
  predicate Formats(s: string, x: real) {
    var dot := DotIndex(s);
    if dot < 0 then
      s != "" && AllDigits(s) && x == Value(s) as real
    else
      && 0 < dot < |s| - 1
      && AllDigits(s[..dot]) && AllDigits(s[dot + 1..])
      && s[|s| - 1] != '0'
      && x == Decimal(Value(s[..dot]), Value(s[dot + 1..]), Pow10(|s| - dot - 1))
  }

  function Decimal(whole: nat, part: nat, scale: nat): real
    requires scale >= 1
  {
    whole as real + part as real / scale as real
  }

  /** strconv.ParseInt with its error ignored: out of range gives the largest int64. */
  function ParseInt64(s: string): int
    requires AllDigits(s)
  {
    if Value(s) > MAX_INT64 then MAX_INT64 else Value(s)
  }

  /** int64 increment with wrap-around. */
  function Inc64(n: int): int {
    if n == MAX_INT64 then -MAX_INT64 - 1 else n + 1
  }

  method RoundHalfUp(v: real, s: string) returns (r: real)
    requires v != 0.0 ==> Formats(s, Abs(v))
    ensures r == RoundTenth(v) <==> IsTenths(v) || RoundTenth(Abs(v)) < 9_223_372_036_854_775_808.0
  {
    hide RoundTenth, IsTenths, DotIndex, Value, Decimal, Pow10, DigitValue;
    RoundExact(v);
    if v == 0.0 {
      ZeroInTenths();
      return 0.0;
    }
    TenthsOfAbs(v);
    var sign, abs := 1.0, v;
    if v < 0.0 {
      sign, abs := -1.0, -v;
    }
    var dotIdx := DotIndex(s);
    if dotIdx < 0 || dotIdx + 2 >= |s| {
      ShortIsTenths(s, abs);
      return v;
    }
    var d1 := DigitValue(s[dotIdx + 1]);
    var d2 := DigitValue(s[dotIdx + 2]);
    ghost var whole, first := Value(s[..dotIdx]), d1;
    DigitsDecideRounding(s, abs, d1, d2);
    if d2 >= 5 {
      d1 := d1 + 1;
    }
    var intPart := ParseInt64(s[..dotIdx]);
    if d1 >= 10 {
      d1 := 0;
      intPart := Inc64(intPart);
    }
    CarryDecides(RoundTenth(abs), whole, first, d2, intPart, d1);
    r := sign * (intPart as real + d1 as real / 10.0);
  }

  lemma ZeroInTenths()
    ensures IsTenths(0.0)
  {
  }

  lemma TenthsOfAbs(v: real)
    ensures IsTenths(Abs(v)) <==> IsTenths(v)
    ensures RoundTenth(v) == if v < 0.0 then -RoundTenth(Abs(v)) else RoundTenth(Abs(v))
  {
    TenthsNegate(v);
  }

  /** Carrying a tenth of ten into the integer part gives the rounded value, while that part fits. */
  lemma CarryDecides(rounded: real, whole: nat, first: nat, second: nat, intPart: int, digit: nat)
    requires first < 10 && rounded == (whole * 10 + first + if second >= 5 then 1 else 0) as real / 10.0
    requires var parsed := if whole > MAX_INT64 then MAX_INT64 else whole;
             var up := if second >= 5 then first + 1 else first;
             && digit == (if up >= 10 then 0 else up)
             && intPart == (if up >= 10 then Inc64(parsed) else parsed)
    ensures intPart as real + digit as real / 10.0 == rounded <==> rounded < MAX_INT64 as real + 1.0
  {
    var n := whole * 10 + first + if second >= 5 then 1 else 0;
    assert intPart as real + digit as real / 10.0 == (intPart * 10 + digit) as real / 10.0;
    assert rounded < MAX_INT64 as real + 1.0 <==> n < MAX_INT64 * 10 + 10;
    assert intPart * 10 + digit == n <==> n < MAX_INT64 * 10 + 10;
  }

  lemma TenthsNegate(v: real)
    ensures IsTenths(v) <==> IsTenths(-v)
  {
    var n := (v * 10.0).Floor;
    assert -v * 10.0 == -(v * 10.0);
    if IsTenths(v) {
      FloorIs(-v * 10.0, -n);
    }
    if IsTenths(-v) {
      FloorIs(v * 10.0, -((-v * 10.0).Floor));
    }
  }

  /** With at most one digit after the point the value is already a whole number of tenths. */
  lemma ShortIsTenths(s: string, x: real)
    requires Formats(s, x)
    requires DotIndex(s) < 0 || DotIndex(s) + 2 >= |s|
    ensures IsTenths(x)
  {
    var dot := DotIndex(s);
    if dot < 0 {
      WholeIsTenths(Value(s));
    } else {
      var n, f, p := Value(s[..dot]), Value(s[dot + 1..]), Pow10(|s| - dot - 1);
      assert |s| - dot - 1 == 1 && p == 10 by {
        assert Pow10(1) == 10 * Pow10(0);
      }
      OneDigitFraction(n, f, p, x);
    }
  }

  lemma WholeIsTenths(n: nat)
    ensures IsTenths(n as real)
  {
    assert n as real * 10.0 == (n * 10) as real;
  }

  lemma OneDigitFraction(n: nat, f: nat, p: nat, x: real)
    requires p == 10 && x == Decimal(n, f, p)
    ensures IsTenths(x)
  {
    FloorIs(x * 10.0, n * 10 + f);
  }

  /** The first two digits after the point decide the rounded value. */
  lemma DigitsDecideRounding(s: string, x: real, d1: nat, d2: nat)
    requires Formats(s, x) && DotIndex(s) >= 0 && DotIndex(s) + 2 < |s|
    requires d1 == DigitValue(s[DotIndex(s) + 1]) && d2 == DigitValue(s[DotIndex(s) + 2])
    ensures RoundTenth(x) == (Value(s[..DotIndex(s)]) * 10 + d1 + if d2 >= 5 then 1 else 0) as real / 10.0
    ensures !IsTenths(x)
  {
    var dot := DotIndex(s);
    var f := s[dot + 1..];
    assert |f| == |s| - dot - 1 && f[|f| - 1] != '0';
    FractionDecides(Value(s[..dot]), f, x);
  }

  lemma FractionDecides(n: nat, f: string, x: real)
    requires AllDigits(f) && |f| >= 2 && f[|f| - 1] != '0'
    requires x == Decimal(n, Value(f), Pow10(|f|))
    ensures RoundTenth(x) == (n * 10 + DigitValue(f[0]) + if DigitValue(f[1]) >= 5 then 1 else 0) as real / 10.0
    ensures !IsTenths(x)
  {
    var d1, d2, t, p := DigitValue(f[0]), DigitValue(f[1]), Value(f[2..]), Pow10(|f[2..]|);
    ValueBound(f[2..]);
    SplitTwoDigits(f);
    LastDigitCounts(f);
    TailFraction(n, d1, d2, t, p, x);
    NotWhole(n, d1, d2, t, p, x);
  }

  lemma SplitTwoDigits(f: string)
    requires AllDigits(f) && |f| >= 2
    ensures Value(f) == (DigitValue(f[0]) * 10 + DigitValue(f[1])) * Pow10(|f[2..]|) + Value(f[2..])
    ensures Pow10(|f|) == 100 * Pow10(|f[2..]|)
  {
    var two := f[..2];
    assert f == two + f[2..];
    ValueConcat(two, f[2..]);
    assert two[..1] == [f[0]] && [f[0]][..0] == "";
    assert Value(two) == Value([f[0]]) * 10 + DigitValue(f[1]);
    assert Pow10(|f|) == 10 * Pow10(|f| - 1);
  }

  lemma LastDigitCounts(f: string)
    requires AllDigits(f) && |f| >= 2 && f[|f| - 1] != '0'
    ensures DigitValue(f[1]) != 0 || Value(f[2..]) != 0
  {
    if |f| > 2 {
      var rest := f[2..];
      assert rest[|rest| - 1] == f[|f| - 1];
    }
  }

  lemma TailFraction(n: nat, d1: nat, d2: nat, t: nat, p: nat, x: real)
    requires p >= 1 && t < p && d1 < 10 && d2 < 10
    requires x == Decimal(n, (d1 * 10 + d2) * p + t, 100 * p)
    ensures x * 10.0 == (n * 10 + d1) as real + (d2 as real + t as real / p as real) / 10.0
    ensures 0.0 <= t as real / p as real < 1.0
    ensures RoundTenth(x) == (n * 10 + d1 + if d2 >= 5 then 1 else 0) as real / 10.0
  {
    SplitFraction(d1 * 10 + d2, t, p);
    FloorIs(x * 10.0 + 0.5, n * 10 + d1 + if d2 >= 5 then 1 else 0);
  }

  lemma SplitFraction(a: nat, t: nat, p: nat)
    requires p >= 1 && t < p
    ensures (a * p + t) as real / (100 * p) as real == (a as real + t as real / p as real) / 100.0
    ensures 0.0 <= t as real / p as real < 1.0
  {
    var q, e := p as real, t as real / p as real;
    assert e * q == t as real;
    ScaleFraction(a as real + e, q);
    assert (a * p + t) as real == a as real * q + e * q;
  }

  lemma ScaleFraction(a: real, q: real)
    requires q >= 1.0
    ensures a * q / (100.0 * q) == a / 100.0
  {
    assert a / 100.0 * (100.0 * q) == a * q;
  }

  lemma NotWhole(n: nat, d1: nat, d2: nat, t: nat, p: nat, x: real)
    requires p >= 1 && t < p && d1 < 10 && d2 < 10 && (d2 != 0 || t != 0)
    requires x == Decimal(n, (d1 * 10 + d2) * p + t, 100 * p)
    ensures !IsTenths(x)
  {
    TailFraction(n, d1, d2, t, p, x);
    var e := t as real / p as real;
    assert t != 0 ==> e > 0.0;
    FloorIs(x * 10.0, n * 10 + d1);
  }
}
