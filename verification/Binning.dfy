// backend/internal/aggregate/binning.go: the floor binning everything else rests on.
//
// Prices, tick sizes and bin widths are exact integers in units of 1e-8 of the quote currency, so that
// every decimal price the exchange quotes is representable.

module Binning {

  type Price = int

  /** How many price units make 1.0, and how many make 0.1. */
  const PRICE_UNIT := 100_000_000
  const TENTH := 10_000_000

  /** floor(price / size): Dafny's division floors when the divisor is positive. */
  function BinIndex(price: Price, size: nat): int
    requires size > 0
  {
    price / size
  }

  /** Lower boundary of the bin of width `size` that holds `price`. */
  function Bin(price: Price, size: nat): (low: Price)
    requires size > 0
    ensures low <= price < low + size
  {
    DivBounds(price, size);
    BinIndex(price, size) * size
  }

  function BinSize(tickSize: nat, compression: nat): (size: nat)
    requires tickSize > 0 && compression > 0
    ensures size > 0
  {
    MulPositive(compression, tickSize);
    compression * tickSize
  }

  function BinPriceLow(price: Price, tickSize: nat, compression: nat): (low: Price)
    requires tickSize > 0 && compression > 0
    ensures low <= price < low + BinSize(tickSize, compression)
  {
    Bin(price, BinSize(tickSize, compression))
  }

  // ----- integer division, one fact at a time -----

  lemma MulPositive(a: int, b: int)
    requires a > 0 && b > 0
    ensures a * b > 0
  {
  }

  lemma MulMonotone(a: int, b: int, c: int)
    requires a <= b && c >= 0
    ensures a * c <= b * c
  {
  }

  lemma DivBounds(p: int, s: int)
    requires s > 0
    ensures p / s * s <= p < p / s * s + s
  {
  }

  lemma DivUnique(p: int, s: int, k: int)
    requires s > 0 && k * s <= p < k * s + s
    ensures p / s == k
  {
    DivBounds(p, s);
    var j := p / s;
    if j < k {
      MulMonotone(j + 1, k, s);
    } else if j > k {
      MulMonotone(k + 1, j, s);
    }
  }

  /** Dividing twice is dividing by the product: floors nest. */
  lemma DivDiv(p: int, s: int, g: int)
    requires s > 0 && g > 0
    ensures g * s > 0
    ensures p / s / g == p / (g * s)
  {
    MulPositive(g, s);
    var k := p / s;
    var m := k / g;
    DivBounds(p, s);
    DivBounds(k, g);
    MulMonotone(m * g, k, s);
    MulMonotone(k, m * g + g - 1, s);
    Reassociate(m, g, s);
    assert (m * g + g - 1) * s == m * g * s + g * s - s;
    DivUnique(p, g * s, m);
  }

  lemma Reassociate(a: int, b: int, c: int)
    ensures a * b * c == a * (b * c)
  {
  }

  // ----- bins -----

  lemma IndexOfMultiple(k: int, size: nat)
    requires size > 0
    ensures BinIndex(k * size, size) == k
    ensures Bin(k * size, size) == k * size
  {
    DivUnique(k * size, size, k);
  }

  /** A bin holds exactly the prices between its boundary and the next one. */
  lemma BinUnique(price: Price, size: nat, low: Price)
    requires size > 0 && low == Bin(low, size) && low <= price < low + size
    ensures Bin(price, size) == low
  {
    DivUnique(price, size, BinIndex(low, size));
  }

  /** The price less its remainder by compression * tickSize, a multiple of that width. */
  lemma BinPriceLowIs(price: Price, tickSize: nat, compression: nat)
    requires tickSize > 0 && compression > 0
    ensures compression * tickSize > 0
    ensures BinPriceLow(price, tickSize, compression) == price - price % (compression * tickSize)
    ensures BinPriceLow(price, tickSize, compression) % (compression * tickSize) == 0
  {
    var width := BinSize(tickSize, compression);
    DivBounds(price, width);
    IndexOfMultiple(BinIndex(price, width), width);
    DivBounds(Bin(price, width), width);
  }

  lemma BinIdempotent(price: Price, size: nat)
    requires size > 0
    ensures Bin(Bin(price, size), size) == Bin(price, size)
  {
    IndexOfMultiple(BinIndex(price, size), size);
  }

  /** Width of g adjacent bins. */
  function Coarser(g: nat, size: nat): (r: nat)
    requires g > 0 && size > 0
    ensures r > 0
  {
    MulPositive(g, size);
    g * size
  }

  /** Binning an already binned price by a multiple of the width gives the bin of the price itself. */
  lemma NestedBins(price: Price, size: nat, g: nat)
    requires g > 0 && size > 0
    ensures Bin(Bin(price, size), Coarser(g, size)) == Bin(price, Coarser(g, size))
  {
    IndexOfMultiple(BinIndex(price, size), size);
    DivDiv(price, size, g);
    DivDiv(Bin(price, size), size, g);
  }

  lemma CoarserTwice(g1: nat, g2: nat, size: nat)
    requires g1 > 0 && g2 > 0 && size > 0
    ensures g1 * g2 > 0
    ensures Coarser(g2, Coarser(g1, size)) == Coarser(g1 * g2, size)
  {
    MulPositive(g1, g2);
    Reassociate(g2, g1, size);
    assert g2 * g1 == g1 * g2;
  }

  lemma BinSizeTimes(g: nat, tickSize: nat, compression: nat)
    requires g > 0 && tickSize > 0 && compression > 0
    ensures compression * g > 0
    ensures Coarser(g, BinSize(tickSize, compression)) == BinSize(tickSize, compression * g)
  {
    MulPositive(compression, g);
    Reassociate(g, compression, tickSize);
    assert g * compression == compression * g;
  }
}
