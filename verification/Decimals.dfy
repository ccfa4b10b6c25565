// backend/internal/store/clickhouse.go, toDecimal18: what one decimal place leaves of a price, and which
// bin prices it keeps apart.

module Decimals {
  import opened Binning
  import Rounding

  /** decimal.NewFromFloat(p).Round(1): the nearest tenth, halves away from zero. */
  function ToDecimal(p: Price): Price {
    if p < 0 then -((-p + TENTH / 2) / TENTH * TENTH) else (p + TENTH / 2) / TENTH * TENTH
  }

  /** The integer form is the rounding of quantities, applied to the price the units stand for. */
  lemma ToDecimalIsRoundTenth(p: Price)
    ensures ToDecimal(p) as real / PRICE_UNIT as real == Rounding.RoundTenth(p as real / PRICE_UNIT as real)
  {
    var x := p as real / PRICE_UNIT as real;
    var a := if p < 0 then -p else p;
    var k := (a + TENTH / 2) / TENTH;
    Rounding.FloorIs((if p < 0 then -x else x) * 10.0 + 0.5, k);
  }

  lemma ToDecimalExactIff(p: Price)
    ensures ToDecimal(p) % TENTH == 0
    ensures ToDecimal(p) == p <==> p % TENTH == 0
  {
  }

  lemma ToDecimalMonotone(p: Price, q: Price)
    requires p <= q
    ensures ToDecimal(p) <= ToDecimal(q)
  {
  }

  /** A spot trade at 64000.37 is stored at 64000.4. */
  lemma SpotPriceIsShortened()
    ensures ToDecimal(6_400_037_000_000) == 6_400_040_000_000
  {
    assert (6_400_037_000_000 + TENTH / 2) / TENTH == 640_004 by {
      DivUnique(6_400_037_000_000 + TENTH / 2, TENTH, 640_004);
    }
  }

  lemma MoreThanATenthApart(p: Price, q: Price)
    requires p + TENTH < q
    ensures ToDecimal(p) < ToDecimal(q)
  {
  }

  /** Bins at least 0.1 wide keep distinct stored prices. */
  lemma WideBinsStayApart(i: int, j: int, size: nat)
    requires size >= TENTH && i < j
    ensures ToDecimal(i * size) < ToDecimal(j * size)
  {
    MulMonotone(i + 1, j, size);
    if size == TENTH {
      ToDecimalExactIff(i * TENTH);
      ToDecimalExactIff(j * TENTH);
    } else {
      MoreThanATenthApart(i * size, j * size);
    }
  }

  /** After m bins of width TENTH - d the price lags m tenths by m * d. */
  lemma Lag(m: nat, d: nat, size: nat)
    requires d + size == TENTH
    ensures m * d >= 0 && m * size == m * TENTH - m * d
  {
    assert m * size + m * d == m * (size + d);
  }

  /** The first bin that lags by more than half a tenth. */
  lemma FirstLate(d: nat) returns (k: nat)
    requires 0 < d < TENTH
    ensures k > 0 && 2 * ((k - 1) * d) <= TENTH < 2 * (k * d)
    ensures k * d == (k - 1) * d + d
    ensures k == 1 ==> (k - 1) * d == 0
    ensures k >= 2 ==> (k - 2) * d == (k - 1) * d - d
  {
    k := TENTH / (2 * d) + 1;
    DivBounds(TENTH, 2 * d);
    assert (k - 1) * (2 * d) == 2 * ((k - 1) * d);
  }

  lemma LaggingPrice(m: nat, lag: nat, n: nat)
    requires (m == n && 2 * lag <= TENTH) || (m == n + 1 && TENTH < 2 * lag < 3 * TENTH)
    requires m * TENTH - lag >= 0
    ensures ToDecimal(m * TENTH - lag) == n * TENTH
  {
  }

  /** Below a width of 0.1 some two neighbouring bins are stored at one price. */
  lemma NarrowBinsMeet(size: nat) returns (i: nat)
    requires 0 < size < TENTH
    ensures ToDecimal(i * size) == ToDecimal((i + 1) * size)
  {
    hide ToDecimal;
    var d := TENTH - size;
    var k := FirstLate(d);
    Lag(k, d, size);
    Lag(k - 1, d, size);
    LaggingPrice(k, k * d, k - 1);
    LaggingPrice(k - 1, (k - 1) * d, k - 1);
    i := k - 1;
  }

  /** All bins lie on tenths exactly when the width does. */
  lemma GridOnTenthsIff(size: nat)
    requires size > 0
    ensures (forall p: Price :: Bin(p, size) % TENTH == 0) <==> size % TENTH == 0
  {
    IndexOfMultiple(1, size);
    assert Bin(size, size) == size;
    if size % TENTH == 0 {
      forall p: Price ensures Bin(p, size) % TENTH == 0 {
        MultipleOfMultiple(BinIndex(p, size), size);
      }
    }
  }

  lemma MultipleOfMultiple(k: int, size: nat)
    requires size % TENTH == 0
    ensures k * size % TENTH == 0
  {
    var g := size / TENTH;
    Reassociate(k, g, TENTH);
    assert k * size == (k * g) * TENTH;
  }
}
