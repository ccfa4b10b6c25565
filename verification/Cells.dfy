// Cluster cells and what it means to aggregate contributions into price bins.

module Cells {
  import opened Binning
  import Rounding
  import Sequences

  /** A price level with its traded volume per side; also one contribution to such a level. */
  datatype Cell = Cell(price: Price, bid: real, ask: real)

  datatype Side = Bid | Ask

  function Amount(c: Cell, side: Side): real {
    match side
    case Bid => c.bid
    case Ask => c.ask
  }

  /** Which prices a sum ranges over: all of them, or one bin. */
  datatype Region = Everywhere | InBin(size: nat, low: Price) {
    predicate Holds(price: Price) {
      Everywhere? || (size > 0 && Bin(price, size) == low)
    }
  }

  /** What `c` adds to the region. */
  function Share(c: Cell, side: Side, region: Region): real {
    if region.Holds(c.price) then Amount(c, side) else 0.0
  }

  /** Exact volume of all contributions that fall into the region. */
  function Total(cs: seq<Cell>, side: Side, region: Region): real {
    if cs == [] then 0.0
    else Total(cs[..|cs| - 1], side, region) + Share(cs[|cs| - 1], side, region)
  }

  function Bins(cs: seq<Cell>, size: nat): set<Price>
    requires size > 0
  {
    set c | c in cs :: Bin(c.price, size)
  }

  /** The reference aggregation: one cell per occupied bin, holding the exact sums. */
  function Group(cs: seq<Cell>, size: nat): map<Price, Cell>
    requires size > 0
  {
    map b | b in Bins(cs, size) :: Cell(b, Total(cs, Bid, InBin(size, b)), Total(cs, Ask, InBin(size, b)))
  }

  function RoundCell(c: Cell): Cell {
    Cell(c.price, Rounding.RoundTenth(c.bid), Rounding.RoundTenth(c.ask))
  }

  function PriceOf(c: Cell): Price {
    c.price
  }

  ghost predicate Ascending(r: seq<Cell>) {
    Sequences.StrictlyAscending(r, PriceOf)
  }

  /** r lists the cells of m, rounded, one per price, in ascending price order. */
  ghost predicate IsSnapshot(r: seq<Cell>, m: map<Price, Cell>) {
    && Ascending(r)
    && Prices(r) == m.Keys
    && (forall c :: c in r ==> c.price in m && c == RoundCell(m[c.price]))
  }

  function Prices(r: seq<Cell>): set<Price> {
    set c | c in r :: PriceOf(c)
  }

  lemma PricesAppend(r: seq<Cell>, c: Cell)
    ensures Prices(r + [c]) == Prices(r) + {c.price}
  {
    assert c in r + [c];
    forall p | p in Prices(r) ensures p in Prices(r + [c]) {
      var d :| d in r && d.price == p;
      assert d in r + [c];
    }
  }

  // ----- one more contribution -----

  /** Add c's volumes to the cell of its bin, creating the cell when it is the first there. */
  function AddTo(m: map<Price, Cell>, bin: Price, c: Cell): map<Price, Cell> {
    var was := if bin in m then m[bin] else Cell(bin, 0.0, 0.0);
    m[bin := Cell(was.price, was.bid + c.bid, was.ask + c.ask)]
  }

  lemma GroupShape(cs: seq<Cell>, size: nat)
    requires size > 0
    ensures forall p :: p in Group(cs, size) ==> Group(cs, size)[p].price == p
    ensures Group([], size) == map[]
  {
  }

  lemma GroupAppend(cs: seq<Cell>, c: Cell, size: nat)
    requires size > 0
    ensures Group(cs + [c], size) == AddTo(Group(cs, size), Bin(c.price, size), c)
  {
    hide Bin;
    var b := Bin(c.price, size);
    var all := cs + [c];
    assert all[..|all| - 1] == cs;
    assert Bins(all, size) == Bins(cs, size) + {b} by {
      forall x | x in Bins(all, size) ensures x in Bins(cs, size) + {b} {
      }
      assert c in all;
      forall x | x in Bins(cs, size) ensures x in Bins(all, size) {
        var y :| y in cs && Bin(y.price, size) == x;
        assert y in all;
      }
    }
    if b !in Bins(cs, size) {
      TotalOfEmptyBin(cs, Bid, size, b);
      TotalOfEmptyBin(cs, Ask, size, b);
    }
  }

  lemma {:induction false} TotalOfEmptyBin(cs: seq<Cell>, side: Side, size: nat, bin: Price)
    requires size > 0 && bin !in Bins(cs, size)
    ensures Total(cs, side, InBin(size, bin)) == 0.0
  {
    if cs != [] {
      var init, last := cs[..|cs| - 1], cs[|cs| - 1];
      assert last in cs;
      assert Bins(init, size) <= Bins(cs, size);
      TotalOfEmptyBin(init, side, size, bin);
    }
  }

  lemma TotalAppend(cs: seq<Cell>, c: Cell, side: Side, region: Region)
    ensures Total(cs + [c], side, region) == Total(cs, side, region) + Share(c, side, region)
  {
    assert (cs + [c])[..|cs + [c]| - 1] == cs;
  }

  // ----- the same by price intervals -----

  /** Bid volume at prices from lo up to but excluding hi. */
  function BidIn(cs: seq<Cell>, lo: Price, hi: Price): real {
    if cs == [] then 0.0
    else
      var c := cs[|cs| - 1];
      BidIn(cs[..|cs| - 1], lo, hi) + if lo <= c.price < hi then c.bid else 0.0
  }

  function AskIn(cs: seq<Cell>, lo: Price, hi: Price): real {
    if cs == [] then 0.0
    else
      var c := cs[|cs| - 1];
      AskIn(cs[..|cs| - 1], lo, hi) + if lo <= c.price < hi then c.ask else 0.0
  }

  lemma {:induction false} BinIsInterval(cs: seq<Cell>, size: nat, low: Price)
    requires size > 0 && Bin(low, size) == low
    ensures Total(cs, Bid, InBin(size, low)) == BidIn(cs, low, low + size)
    ensures Total(cs, Ask, InBin(size, low)) == AskIn(cs, low, low + size)
  {
    if cs != [] {
      var c := cs[|cs| - 1];
      BinIsInterval(cs[..|cs| - 1], size, low);
      if low <= c.price < low + size {
        BinUnique(c.price, size, low);
      }
    }
  }

  /** The largest multiple of the width at or below the price. */
  function FloorTo(p: Price, width: nat): Price
    requires width > 0
  {
    p - p % width
  }

  function Floors(cs: seq<Cell>, width: nat): set<Price>
    requires width > 0
  {
    set c | c in cs :: FloorTo(c.price, width)
  }

  /** r lists, by price, one cell per bin of the given width that the contributions touch: the bin starts on
      a multiple of the width, and each side is the rounded volume between there and the next multiple. */
  ghost predicate Lists(r: seq<Cell>, cs: seq<Cell>, width: nat)
    requires width > 0
  {
    && (forall i, j :: 0 <= i < j < |r| ==> r[i].price < r[j].price)
    && Prices(r) == Floors(cs, width)
    && (forall c :: c in r ==>
          && c.bid == Rounding.RoundTenth(BidIn(cs, c.price, c.price + width))
          && c.ask == Rounding.RoundTenth(AskIn(cs, c.price, c.price + width)))
  }

  /** A snapshot of the regrouping is that list. */
  lemma SnapshotLists(r: seq<Cell>, cs: seq<Cell>, size: nat)
    requires size > 0 && IsSnapshot(r, Group(cs, size))
    ensures Lists(r, cs, size)
  {
    hide Bin, Rounding.RoundTenth, BidIn, AskIn;
    forall i, j | 0 <= i < j < |r| ensures r[i].price < r[j].price {
      assert PriceOf(r[i]) < PriceOf(r[j]);
    }
    FloorsAreBins(cs, size);
    forall c | c in r
      ensures c.bid == Rounding.RoundTenth(BidIn(cs, c.price, c.price + size))
      ensures c.ask == Rounding.RoundTenth(AskIn(cs, c.price, c.price + size))
    {
      assert PriceOf(c) in Prices(r);
      var d :| d in cs && Bin(d.price, size) == c.price;
      BinIdempotent(d.price, size);
      BinIsInterval(cs, size, c.price);
    }
  }

  lemma FloorsAreBins(cs: seq<Cell>, size: nat)
    requires size > 0
    ensures Floors(cs, size) == Bins(cs, size)
  {
    forall c | c in cs ensures FloorTo(c.price, size) == Bin(c.price, size) {
      FloorIsBin(c.price, size);
    }
  }

  lemma FloorIsBin(p: Price, size: nat)
    requires size > 0
    ensures FloorTo(p, size) == Bin(p, size)
  {
    DivBounds(p, size);
  }

  // ----- the order of contributions does not matter -----

  lemma {:induction false} TotalConcat(a: seq<Cell>, b: seq<Cell>, side: Side, region: Region)
    ensures Total(a + b, side, region) == Total(a, side, region) + Total(b, side, region)
  {
    if b == [] {
      assert a + b == a;
    } else {
      var b' := b[..|b| - 1];
      assert (a + b)[..|a + b| - 1] == a + b';
      TotalConcat(a, b', side, region);
    }
  }

  lemma {:induction false} TotalOfPermutation(a: seq<Cell>, b: seq<Cell>, side: Side, region: Region)
    requires multiset(a) == multiset(b)
    ensures Total(a, side, region) == Total(b, side, region)
  {
    if a == [] {
      assert |b| == |multiset(b)| == 0;
    } else {
      var i := Sequences.PermutationStep(a, b);
      var a', x, l, r := a[..|a| - 1], a[|a| - 1], b[..i], b[i + 1..];
      assert b == l + [x] + r;
      TotalOfPermutation(a', l + r, side, region);
      TotalConcat(l + [x], r, side, region);
      TotalConcat(l, [x], side, region);
      TotalConcat(l, r, side, region);
      assert [x][..0] == [];
    }
  }

  lemma GroupOfPermutation(a: seq<Cell>, b: seq<Cell>, size: nat)
    requires size > 0 && multiset(a) == multiset(b)
    ensures Group(a, size) == Group(b, size)
  {
    Sequences.MembersOfPermutation(a, b);
    assert Bins(a, size) == Bins(b, size);
    forall p | p in Bins(a, size)
      ensures Group(a, size)[p] == Group(b, size)[p]
    {
      TotalOfPermutation(a, b, Bid, InBin(size, p));
      TotalOfPermutation(a, b, Ask, InBin(size, p));
    }
  }

  // ----- a snapshot is determined by the map -----

  lemma SnapshotUnique(r: seq<Cell>, s: seq<Cell>, m: map<Price, Cell>)
    requires IsSnapshot(r, m) && IsSnapshot(s, m)
    ensures r == s
  {
    SnapshotMembers(r, s, m);
    SnapshotMembers(s, r, m);
    assert Sequences.Members(r) == Sequences.Members(s);
    Sequences.AscendingUnique(r, s, PriceOf);
  }

  lemma SnapshotMembers(r: seq<Cell>, s: seq<Cell>, m: map<Price, Cell>)
    requires IsSnapshot(r, m) && IsSnapshot(s, m)
    ensures forall i :: 0 <= i < |r| ==> r[i] in s
  {
    forall i | 0 <= i < |r| ensures r[i] in s {
      var c := r[i];
      assert c in r && PriceOf(c) in Prices(s);
      var d :| d in s && PriceOf(d) == PriceOf(c);
    }
  }
}
