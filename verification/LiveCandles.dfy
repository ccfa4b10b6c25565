// backend/internal/cache/redis.go: what GetAggCells returns for a candle that IncrCell built, bin by bin,
// against the exact volumes and against the aggregator's own cells.

module LiveCandles {
  import opened Binning
  import opened Rounding
  import opened Cells
  import opened RedisCells

  /** The bin a returned price stands for. */
  function BinAt(price: real): Price {
    (price * PRICE_UNIT as real).Floor
  }

  // ----- the fields of a live hash are the occupied bins -----

  function FieldsOf(bins: set<Price>): set<string> {
    set b | b in bins :: FieldOf(b)
  }

  lemma {:induction false} LiveFields(cs: seq<Cell>, size: nat)
    requires size > 0
    ensures Live(cs, size).Keys == FieldsOf(Bins(cs, size))
    ensures forall f :: f in Live(cs, size) ==> Readable(Live(cs, size), f)
  {
    hide Bin, FieldOf, Incr, Readable;
    if cs != [] {
      var init, c := cs[..|cs| - 1], cs[|cs| - 1];
      assert cs == init + [c] && c in cs;
      LiveFields(init, size);
      MoreBins(init, c, size);
      IncrIsReadable(Live(init, size), Bin(c.price, size), c);
    }
  }

  lemma MoreBins(init: seq<Cell>, c: Cell, size: nat)
    requires size > 0
    ensures FieldsOf(Bins(init + [c], size)) == FieldsOf(Bins(init, size)) + {FieldOf(Bin(c.price, size))}
  {
    hide Bin, FieldOf;
    var all := init + [c];
    assert c in all && forall d :: d in init ==> d in all;
    assert Bins(all, size) == Bins(init, size) + {Bin(c.price, size)} by {
      forall d | d in init ensures Bin(d.price, size) in Bins(all, size) {
        assert d in all;
      }
    }
  }

  lemma IncrIsReadable(h: Hash, bin: Price, c: Cell)
    requires forall f :: f in h ==> Readable(h, f)
    ensures var after := Incr(h, FieldOf(bin), c.bid, c.ask);
            after.Keys == h.Keys + {FieldOf(bin)} && forall f :: f in after ==> Readable(after, f)
  {
    hide Split, IsDecimal, Pair, FieldOf, Stored;
    PairReadsBack(Stored(h, FieldOf(bin), Bid) + c.bid, Stored(h, FieldOf(bin), Ask) + c.ask);
    FieldValue(bin);
  }

  lemma {:induction false} FieldsKeepCount(bins: set<Price>, size: nat)
    requires size >= TENTH && forall b :: b in bins ==> Bin(b, size) == b
    ensures |FieldsOf(bins)| == |bins|
    decreases |bins|
  {
    hide FieldOf, Bin;
    if bins == {} {
      assert FieldsOf(bins) == {};
    } else {
      var b := Sequences.Pick(bins);
      var rest := bins - {b};
      FieldsKeepCount(rest, size);
      forall d | d in rest ensures FieldOf(d) != FieldOf(b) {
        DistinctFields(d, b, size);
      }
      assert FieldsOf(bins) == FieldsOf(rest) + {FieldOf(b)};
      assert bins == rest + {b};
    }
  }

  lemma DistinctFields(p: Price, q: Price, size: nat)
    requires size >= TENTH && Bin(p, size) == p && Bin(q, size) == q && p != q
    ensures FieldOf(p) != FieldOf(q)
  {
    hide FieldOf;
    var i, j := BinIndex(p, size), BinIndex(q, size);
    if i < j {
      WideBinsKeepApart(i, j, size);
    } else {
      WideBinsKeepApart(j, i, size);
    }
  }

  lemma BinsAreBins(cs: seq<Cell>, size: nat)
    requires size > 0
    ensures forall b :: b in Bins(cs, size) ==> Bin(b, size) == b
  {
    forall c | c in cs ensures Bin(Bin(c.price, size), size) == Bin(c.price, size) {
      BinIdempotent(c.price, size);
    }
  }

  // ----- prices come back -----

  lemma PriceComesBack(b: Price, size: nat)
    requires size >= TENTH && size % TENTH == 0 && Bin(b, size) == b
    ensures IsDecimal(FieldOf(b)) && DecimalValue(FieldOf(b)) == b as real / PRICE_UNIT as real
    ensures BinAt(b as real / PRICE_UNIT as real) == b
  {
    hide IsDecimal, DecimalValue, FieldOf;
    Decimals.MultipleOfMultiple(BinIndex(b, size), size);
    PriceSurvivesIff(b);
  }

  // ----- what is returned -----

  ghost predicate FromLive(cells: seq<LiveCell>, fields: seq<string>, cs: seq<Cell>, size: nat) {
    size >= TENTH && size % TENTH == 0 && ReadFrom(cells, fields, Live(cs, size))
  }

  /** c holds what is stored for the bin. */
  ghost predicate IsStored(c: LiveCell, cs: seq<Cell>, size: nat, b: Price)
    requires size > 0
  {
    && c.price == b as real / PRICE_UNIT as real
    && c.bid == Stored(Live(cs, size), FieldOf(b), Bid) && c.ask == Stored(Live(cs, size), FieldOf(b), Ask)
  }

  /** The bin of the i-th returned cell. */
  lemma BinOfCell(cells: seq<LiveCell>, fields: seq<string>, cs: seq<Cell>, size: nat, i: nat) returns (b: Price)
    requires FromLive(cells, fields, cs, size) && i < |cells|
    ensures b in Bins(cs, size) && Bin(b, size) == b && fields[i] == FieldOf(b)
    ensures BinAt(cells[i].price) == b && IsStored(cells[i], cs, size, b)
  {
    hide FieldOf, Stored, Live, Readable, Bin, DecimalValue, IsDecimal, BinAt;
    LiveFields(cs, size);
    BinsAreBins(cs, size);
    ReadableMeans(Live(cs, size), fields[i]);
    assert fields[i] in Live(cs, size).Keys;
    b := BinOfField(Bins(cs, size), fields[i]);
    PriceComesBack(b, size);
  }

  lemma BinOfField(bins: set<Price>, f: string) returns (b: Price)
    requires f in FieldsOf(bins)
    ensures b in bins && FieldOf(b) == f
  {
    hide FieldOf;
    b :| b in bins && FieldOf(b) == f;
  }

  /** Where the cell of an occupied bin was returned. */
  lemma CellOfBin(cells: seq<LiveCell>, fields: seq<string>, cs: seq<Cell>, size: nat, b: Price) returns (i: nat)
    requires FromLive(cells, fields, cs, size) && b in Bins(cs, size)
    ensures i < |cells| && fields[i] == FieldOf(b) && IsStored(cells[i], cs, size, b)
  {
    hide FieldOf, Stored, Live, Readable, Bin, DecimalValue, IsDecimal, BinAt;
    LiveFields(cs, size);
    BinsAreBins(cs, size);
    PriceComesBack(b, size);
    assert FieldOf(b) in Live(cs, size).Keys;
    assert FieldOf(b) in fields;
    i :| 0 <= i < |fields| && fields[i] == FieldOf(b);
  }

  lemma ReturnedCount(cells: seq<LiveCell>, fields: seq<string>, cs: seq<Cell>, size: nat)
    requires FromLive(cells, fields, cs, size)
    ensures |cells| == |Bins(cs, size)|
  {
    hide FieldOf, Stored, Live, Readable, Bin, DecimalValue, IsDecimal;
    LiveFields(cs, size);
    BinsAreBins(cs, size);
    FieldsKeepCount(Bins(cs, size), size);
    AllReadable(Live(cs, size), fields);
    ReadableAll(Live(cs, size));
  }

  lemma ReadableAll(h: Hash)
    requires forall f :: f in h ==> Readable(h, f)
    ensures ReadableFields(h) == h.Keys
  {
    hide Readable;
  }

  ghost predicate Near(x: real, exact: real, hits: nat) {
    exact - 0.05 * hits as real <= x <= exact + 0.05 * hits as real
  }

  /** The cell is near the exact volumes of the bin at its price, side by side. */
  ghost predicate NearBin(c: LiveCell, cs: seq<Cell>, size: nat)
    requires size > 0
  {
    var b := BinAt(c.price);
    && b in Bins(cs, size) && c.price == b as real / PRICE_UNIT as real
    && Near(c.bid, Total(cs, Bid, InBin(size, b)), Hits(OnField(cs, size, FieldOf(b)), Bid))
    && Near(c.ask, Total(cs, Ask, InBin(size, b)), Hits(OnField(cs, size, FieldOf(b)), Ask))
  }

  /** For bins on tenths, the cells read from a live hash are one per occupied bin. Each side is within 0.05
      per trade on it of the bin's exact volume on that side. */
  lemma CellsPerBin(cs: seq<Cell>, size: nat, cells: seq<LiveCell>, fields: seq<string>)
    requires size >= TENTH && FromLive(cells, fields, cs, size)
    ensures |cells| == |Bins(cs, size)|
    ensures forall b :: b in Bins(cs, size) ==> exists c :: c in cells && c.price == b as real / PRICE_UNIT as real
    ensures forall c :: c in cells ==> NearBin(c, cs, size)
  {
    hide FromLive, FieldOf, Stored, Live, OnField, Bin, Near, BinAt, Bins;
    ReturnedCount(cells, fields, cs, size);
    forall b | b in Bins(cs, size) ensures exists c :: c in cells && c.price == b as real / PRICE_UNIT as real {
      var i := CellOfBin(cells, fields, cs, size, b);
      assert cells[i] in cells;
    }
    forall c | c in cells ensures NearBin(c, cs, size) {
      var i :| 0 <= i < |cells| && cells[i] == c;
      var b := BinOfCell(cells, fields, cs, size, i);
      StoredIsNear(cs, size, b, Bid);
      StoredIsNear(cs, size, b, Ask);
    }
  }

  lemma StoredIsNear(cs: seq<Cell>, size: nat, b: Price, side: Side)
    requires size >= TENTH && Bin(b, size) == b
    ensures Near(Stored(Live(cs, size), FieldOf(b), side), Total(cs, side, InBin(size, b)),
                 Hits(OnField(cs, size, FieldOf(b)), side))
  {
    hide FieldOf, Stored, Live, OnField, Bin;
    Drift(cs, size, FieldOf(b), side);
    FieldIsBin(cs, size, b, side);
  }

  /** With quantities in whole tenths they are the aggregator's own cells, price, bid and ask. */
  lemma CellsAreAggregator(cs: seq<Cell>, size: nat, cells: seq<LiveCell>, fields: seq<string>, snapshot: seq<Cell>)
    requires size >= TENTH && FromLive(cells, fields, cs, size)
    requires IsSnapshot(snapshot, Group(cs, size)) && SideInTenths(cs, Bid) && SideInTenths(cs, Ask)
    ensures |cells| == |snapshot|
    ensures forall s :: s in snapshot ==> LiveCell(s.price as real / PRICE_UNIT as real, s.bid, s.ask) in cells
    ensures forall c :: c in cells ==> Cell(BinAt(c.price), c.bid, c.ask) in snapshot
  {
    hide FromLive, FieldOf, Stored, Live, OnField, Bin, BinAt, SideInTenths, RoundTenth, IsSnapshot, Group, Bins;
    ReturnedCount(cells, fields, cs, size);
    SnapshotBins(cs, size, snapshot);
    forall s | s in snapshot ensures LiveCell(s.price as real / PRICE_UNIT as real, s.bid, s.ask) in cells {
      SnapshotPrice(cs, size, snapshot, s);
      var i := CellOfBin(cells, fields, cs, size, s.price);
      SnapshotStored(cs, size, snapshot, s);
      assert cells[i] == LiveCell(s.price as real / PRICE_UNIT as real, s.bid, s.ask);
    }
    forall c | c in cells ensures Cell(BinAt(c.price), c.bid, c.ask) in snapshot {
      var i :| 0 <= i < |cells| && cells[i] == c;
      var b := BinOfCell(cells, fields, cs, size, i);
      var s := CellAtBin(cs, size, snapshot, b);
      SnapshotStored(cs, size, snapshot, s);
      assert Cell(b, c.bid, c.ask) == s;
    }
  }

  lemma SnapshotBins(cs: seq<Cell>, size: nat, snapshot: seq<Cell>)
    requires size > 0 && IsSnapshot(snapshot, Group(cs, size))
    ensures Prices(snapshot) == Bins(cs, size) && |snapshot| == |Bins(cs, size)|
  {
    hide Bins;
    CountSnapshot(snapshot);
    assert Group(cs, size).Keys == Bins(cs, size);
  }

  lemma SnapshotPrice(cs: seq<Cell>, size: nat, snapshot: seq<Cell>, s: Cell)
    requires size > 0 && IsSnapshot(snapshot, Group(cs, size)) && s in snapshot
    ensures s.price in Bins(cs, size)
  {
    hide Bins;
    SnapshotBins(cs, size, snapshot);
    assert PriceOf(s) in Prices(snapshot);
  }

  lemma CellAtBin(cs: seq<Cell>, size: nat, snapshot: seq<Cell>, b: Price) returns (s: Cell)
    requires size > 0 && IsSnapshot(snapshot, Group(cs, size)) && b in Bins(cs, size)
    ensures s in snapshot && s.price == b
  {
    hide Bins, IsSnapshot, Group;
    SnapshotBins(cs, size, snapshot);
    assert b in Prices(snapshot);
    s :| s in snapshot && PriceOf(s) == b;
  }

  lemma SnapshotStored(cs: seq<Cell>, size: nat, snapshot: seq<Cell>, s: Cell)
    requires size >= TENTH && IsSnapshot(snapshot, Group(cs, size)) && s in snapshot
    requires SideInTenths(cs, Bid) && SideInTenths(cs, Ask)
    ensures s.bid == Stored(Live(cs, size), FieldOf(s.price), Bid)
    ensures s.ask == Stored(Live(cs, size), FieldOf(s.price), Ask)
  {
    hide FieldOf, Stored, Live, OnField, Bin, SideInTenths, IsSnapshot, Group;
    LiveNearAggregator(cs, size, snapshot, s, Bid);
    LiveNearAggregator(cs, size, snapshot, s, Ask);
  }

  lemma CountSnapshot(snapshot: seq<Cell>)
    requires Ascending(snapshot)
    ensures |Prices(snapshot)| == |snapshot|
  {
    var ps := seq(|snapshot|, i requires 0 <= i < |snapshot| => snapshot[i].price);
    forall i, j | 0 <= i < j < |ps| ensures ps[i] != ps[j] {
      assert PriceOf(snapshot[i]) < PriceOf(snapshot[j]);
    }
    Sequences.MembersSize(ps);
    forall p ensures p in Sequences.Members(ps) <==> p in Prices(snapshot) {
      if p in ps {
        var i :| 0 <= i < |ps| && ps[i] == p;
        assert snapshot[i] in snapshot && PriceOf(snapshot[i]) == p;
      }
      if p in Prices(snapshot) {
        var s :| s in snapshot && PriceOf(s) == p;
        var i :| 0 <= i < |snapshot| && snapshot[i] == s;
        assert ps[i] == p;
      }
    }
    assert Sequences.Members(ps) == Prices(snapshot);
  }
}
