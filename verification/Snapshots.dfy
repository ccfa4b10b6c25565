// The read-round-sort step shared by Flush, Cells and MergeCells.

module Snapshots {
  import opened Cells
  import Sorting

  /** Read a cell map in any order, round every cell and sort by price. */
  method Snapshot(cells: map<Binning.Price, Cell>) returns (r: seq<Cell>)
    requires forall p :: p in cells ==> cells[p].price == p
    ensures IsSnapshot(r, cells)
  {
    var read: seq<Cell> := [];
    var todo := cells.Keys;
    while todo != {}
      invariant todo <= cells.Keys && Prices(read) == cells.Keys - todo
      invariant forall c :: c in read ==> c.price in cells && c == RoundCell(cells[c.price])
      invariant DistinctPrices(read)
      decreases todo
    {
      ghost var some := Sequences.Pick(todo);
      var p :| p in todo;
      var c := RoundCell(cells[p]);
      PricesAppend(read, c);
      DistinctAppend(read, c);
      read := read + [c];
      todo := todo - {p};
    }
    r := Sorting.Sort(read, PriceOf);
    SortedPrices(read, r);
  }

  ghost predicate DistinctPrices(r: seq<Cell>) {
    forall i, j :: 0 <= i < j < |r| ==> r[i].price != r[j].price
  }

  lemma DistinctAppend(r: seq<Cell>, c: Cell)
    requires DistinctPrices(r) && c.price !in Prices(r)
    ensures DistinctPrices(r + [c])
  {
    forall i | 0 <= i < |r| ensures r[i].price != c.price {
      assert r[i] in r;
    }
  }

  /** Sorting cells of distinct prices gives strictly ascending prices and the same cells. */
  lemma SortedPrices(read: seq<Cell>, r: seq<Cell>)
    requires DistinctPrices(read)
    requires Sorting.SortedBy(r, PriceOf) && multiset(r) == multiset(read)
    ensures Ascending(r) && Prices(r) == Prices(read)
    ensures forall c :: c in r <==> c in read
  {
    Sequences.MembersOfPermutation(r, read);
    forall i, j | 0 <= i < j < |r| ensures PriceOf(r[i]) < PriceOf(r[j]) {
      assert PriceOf(r[i]) <= PriceOf(r[j]);
      if r[i].price == r[j].price {
        SamePriceSameCell(read, r[i], r[j]);
        TwiceInSeq(r, i, j);
        OnceInSeq(read, r[i]);
      }
    }
  }

  lemma SamePriceSameCell(r: seq<Cell>, c: Cell, d: Cell)
    requires DistinctPrices(r) && c in r && d in r && c.price == d.price
    ensures c == d
  {
  }

  lemma TwiceInSeq(r: seq<Cell>, i: nat, j: nat)
    requires i < j < |r| && r[i] == r[j]
    ensures multiset(r)[r[i]] >= 2
  {
    assert r == r[..i] + [r[i]] + r[i + 1..j] + [r[j]] + r[j + 1..];
  }

  lemma {:induction false} OnceInSeq(r: seq<Cell>, c: Cell)
    requires DistinctPrices(r)
    ensures multiset(r)[c] <= 1
  {
    if r != [] {
      var init, last := r[..|r| - 1], r[|r| - 1];
      assert r == init + [last];
      OnceInSeq(init, c);
      forall i | 0 <= i < |init| ensures init[i] != last {
        assert r[i].price != r[|r| - 1].price;
      }
    }
  }
}
