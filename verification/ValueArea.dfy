// frontend-chart/src/lib/api.ts, mapBackendCandle: point of control and the 70% value area, chosen by
// descending cell volume.

module ValueArea {
  import opened Binning
  import Sequences

  datatype VolumeCell = VolumeCell(price: Price, volume: real)

  function Sum(cells: seq<VolumeCell>): real {
    if cells == [] then 0.0 else Sum(cells[..|cells| - 1]) + cells[|cells| - 1].volume
  }

  ghost predicate Descending(cells: seq<VolumeCell>) {
    forall i, j :: 0 <= i < j < |cells| ==> cells[i].volume >= cells[j].volume
  }

  // ----- JavaScript's stable sort by descending volume -----

  function InsertByVolume(c: VolumeCell, sorted: seq<VolumeCell>): (r: seq<VolumeCell>)
    ensures multiset(r) == multiset{c} + multiset(sorted)
  {
    if sorted == [] || c.volume >= sorted[0].volume then [c] + sorted
    else
      assert sorted == [sorted[0]] + sorted[1..];
      [sorted[0]] + InsertByVolume(c, sorted[1..])
  }

  function SortedByVolume(cells: seq<VolumeCell>): (r: seq<VolumeCell>)
    ensures multiset(r) == multiset(cells)
  {
    if cells == [] then []
    else
      assert cells == [cells[0]] + cells[1..];
      InsertByVolume(cells[0], SortedByVolume(cells[1..]))
  }

  lemma {:induction false} InsertKeepsDescending(c: VolumeCell, sorted: seq<VolumeCell>)
    requires Descending(sorted)
    ensures Descending(InsertByVolume(c, sorted))
  {
    if sorted == [] || c.volume >= sorted[0].volume {
      InFront(c, sorted);
    } else {
      var rest := InsertByVolume(c, sorted[1..]);
      InsertKeepsDescending(c, sorted[1..]);
      assert InsertByVolume(c, sorted) == [sorted[0]] + rest;
      hide InsertByVolume;
      forall i | 0 <= i < |rest| ensures sorted[0].volume >= rest[i].volume {
        Inserted(c, sorted[1..], rest, i);
        assert rest[i] == c || sorted[0].volume >= rest[i].volume;
      }
      InFront(sorted[0], rest);
    }
  }

  /** A cell of at least the first volume may stand in front. */
  lemma InFront(c: VolumeCell, cells: seq<VolumeCell>)
    requires Descending(cells) && (cells == [] || c.volume >= cells[0].volume)
    ensures Descending([c] + cells)
  {
    var all := [c] + cells;
    forall i, j | 0 <= i < j < |all| ensures all[i].volume >= all[j].volume {
      if i > 0 {
        assert cells[i - 1].volume >= cells[j - 1].volume;
      } else {
        assert j > 1 ==> cells[0].volume >= cells[j - 1].volume;
      }
    }
  }

  lemma Inserted(c: VolumeCell, tail: seq<VolumeCell>, rest: seq<VolumeCell>, i: nat)
    requires multiset(rest) == multiset{c} + multiset(tail) && i < |rest|
    ensures rest[i] == c || rest[i] in tail
  {
    assert rest[i] in multiset(rest);
  }

  lemma {:induction false} SortDescends(cells: seq<VolumeCell>)
    ensures Descending(SortedByVolume(cells))
  {
    if cells != [] {
      SortDescends(cells[1..]);
      InsertKeepsDescending(cells[0], SortedByVolume(cells[1..]));
    }
  }

  /** The cells of one volume, in order. */
  function OfVolume(cells: seq<VolumeCell>, volume: real): seq<VolumeCell> {
    if cells == [] then []
    else
      var rest := OfVolume(cells[1..], volume);
      if cells[0].volume == volume then [cells[0]] + rest else rest
  }

  lemma OfVolumeCons(c: VolumeCell, cells: seq<VolumeCell>, volume: real)
    ensures OfVolume([c] + cells, volume)
         == if c.volume == volume then [c] + OfVolume(cells, volume) else OfVolume(cells, volume)
  {
    assert ([c] + cells)[1..] == cells;
  }

  lemma {:induction false} InsertIsStable(c: VolumeCell, sorted: seq<VolumeCell>, volume: real)
    ensures OfVolume(InsertByVolume(c, sorted), volume)
         == if c.volume == volume then [c] + OfVolume(sorted, volume) else OfVolume(sorted, volume)
  {
    if sorted == [] || c.volume >= sorted[0].volume {
      OfVolumeCons(c, sorted, volume);
    } else {
      InsertIsStable(c, sorted[1..], volume);
      OfVolumeCons(sorted[0], InsertByVolume(c, sorted[1..]), volume);
    }
  }

  /** Cells of equal volume keep their order. */
  lemma {:induction false} SortIsStable(cells: seq<VolumeCell>, volume: real)
    ensures OfVolume(SortedByVolume(cells), volume) == OfVolume(cells, volume)
  {
    if cells != [] {
      SortIsStable(cells[1..], volume);
      InsertIsStable(cells[0], SortedByVolume(cells[1..]), volume);
    }
  }

  /** Position of the first cell of maximal volume. */
  ghost predicate IsFirstMax(cells: seq<VolumeCell>, i: nat) {
    && i < |cells|
    && (forall j :: 0 <= j < |cells| ==> cells[j].volume <= cells[i].volume)
    && (forall j :: 0 <= j < i ==> cells[j].volume < cells[i].volume)
  }

  function FirstMax(cells: seq<VolumeCell>): (i: nat)
    requires cells != []
    ensures IsFirstMax(cells, i)
  {
    var last := |cells| - 1;
    if last == 0 then 0
    else
      var i := FirstMax(cells[..last]);
      if cells[last].volume > cells[i].volume then last else i
  }

  /** Because the sort is stable it puts the first maximal cell in front. */
  lemma {:induction false} SortedHead(cells: seq<VolumeCell>, i: nat)
    requires IsFirstMax(cells, i)
    ensures SortedByVolume(cells) != [] && SortedByVolume(cells)[0] == cells[i]
  {
    var rest := cells[1..];
    if i > 0 {
      assert IsFirstMax(rest, i - 1);
      SortedHead(rest, i - 1);
      assert cells[0].volume < cells[i].volume;
    } else {
      NoneAbove(cells);
    }
  }

  lemma NoneAbove(cells: seq<VolumeCell>)
    requires IsFirstMax(cells, 0)
    ensures var sorted := SortedByVolume(cells[1..]); sorted != [] ==> sorted[0].volume <= cells[0].volume
  {
    hide SortedByVolume;
    var rest := cells[1..];
    Sequences.MembersOfPermutation(SortedByVolume(rest), rest);
    forall c | c in rest ensures c.volume <= cells[0].volume {
      var j :| 0 <= j < |rest| && rest[j] == c;
      assert cells[j + 1] == c;
    }
  }

  // ----- how many cells the value area takes -----

  /** k is where the loop stops: after the first cell that brings the sum to the target, or at the end. */
  ghost predicate IsCut(sorted: seq<VolumeCell>, target: real, k: nat) {
    && k <= |sorted| && (sorted != [] ==> k >= 1)
    && (forall m :: 1 <= m < k ==> Sum(sorted[..m]) < target)
    && (k < |sorted| ==> Sum(sorted[..k]) >= target)
  }

  method MapCandle(open: Price, high: Price, low: Price, volume: real, cells: seq<VolumeCell>)
    returns (pocPrice: Price, val: Price, vah: Price, area: seq<VolumeCell>)
    ensures pocPrice
         == if cells != [] && cells[FirstMax(cells)].volume > 0.0 then cells[FirstMax(cells)].price else open
    ensures IsCut(SortedByVolume(cells), volume * 0.7, |area|) && area == SortedByVolume(cells)[..|area|]
    ensures cells == [] ==> val == low && vah == high
    ensures cells != [] ==> forall c :: c in area ==> val <= c.price <= vah
    ensures cells != [] && cells[FirstMax(cells)].volume > 0.0 ==> val <= pocPrice <= vah
    ensures cells != [] ==> (exists c :: c in area && c.price == val) && (exists c :: c in area && c.price == vah)
  {
    pocPrice := PointOfControl(open, cells);
    hide Sum, SortedByVolume, FirstMax;
    var sortedByVol := SortedByVolume(cells);
    area := TopVolume(sortedByVol, volume * 0.7);
    val, vah := low, high;
    if cells != [] {
      PocInValueArea(cells, volume * 0.7, |area|);
    }
    if |area| > 0 {
      val, vah := area[0].price, area[0].price;
      for i := 1 to |area|
        invariant forall c :: c in area[..i] ==> val <= c.price <= vah
        invariant (exists c :: c in area && c.price == val) && (exists c :: c in area && c.price == vah)
      {
        assert area[..i + 1] == area[..i] + [area[i]];
        assert area[i] in area;
        if area[i].price < val {
          val := area[i].price;
        }
        if area[i].price > vah {
          vah := area[i].price;
        }
      }
      assert area[..|area|] == area;
    } else {
      assert |cells| == |multiset(cells)| == |sortedByVol|;
    }
  }

  method PointOfControl(open: Price, cells: seq<VolumeCell>) returns (pocPrice: Price)
    ensures pocPrice
         == if cells != [] && cells[FirstMax(cells)].volume > 0.0 then cells[FirstMax(cells)].price else open
  {
    pocPrice := open;
    var maxVol := 0.0;
    for i := 0 to |cells|
      invariant if i > 0 && cells[FirstMax(cells[..i])].volume > 0.0
                then maxVol == cells[FirstMax(cells[..i])].volume && pocPrice == cells[FirstMax(cells[..i])].price
                else maxVol == 0.0 && pocPrice == open
    {
      assert cells[..i + 1][..i] == cells[..i];
      if cells[i].volume > maxVol {
        maxVol, pocPrice := cells[i].volume, cells[i].price;
      }
    }
    assert cells[..|cells|] == cells;
  }

  method TopVolume(sorted: seq<VolumeCell>, targetVol: real) returns (area: seq<VolumeCell>)
    ensures IsCut(sorted, targetVol, |area|) && area == sorted[..|area|]
  {
    var runningVol := 0.0;
    area := [];
    for i := 0 to |sorted|
      invariant area == sorted[..i] && runningVol == Sum(sorted[..i])
      invariant forall m :: 1 <= m <= i ==> Sum(sorted[..m]) < targetVol
    {
      assert sorted[..i + 1][..i] == sorted[..i];
      runningVol := runningVol + sorted[i].volume;
      area := area + [sorted[i]];
      if runningVol >= targetVol {
        return;
      }
    }
  }

  // ----- optimality -----

  lemma {:induction false} SumSplit(a: seq<VolumeCell>, b: seq<VolumeCell>)
    ensures Sum(a + b) == Sum(a) + Sum(b)
  {
    if b == [] {
      assert a + b == a;
    } else {
      assert (a + b)[..|a + b| - 1] == a + b[..|b| - 1];
      SumSplit(a, b[..|b| - 1]);
    }
  }

  /** Moving a window of a descending sequence one to the right cannot raise its sum. */
  lemma ShiftedWindow(s: seq<VolumeCell>, m: nat)
    requires Descending(s) && m < |s|
    ensures Sum(s[1..m + 1]) <= Sum(s[..m])
  {
    assert s[..m + 1] == [s[0]] + s[1..m + 1] && s[..m + 1] == s[..m] + [s[m]];
    SumSplit([s[0]], s[1..m + 1]);
    SumSplit(s[..m], [s[m]]);
    SingleSum(s[0]);
    SingleSum(s[m]);
    assert m > 0 ==> s[0].volume >= s[m].volume;
  }

  lemma SingleSum(c: VolumeCell)
    ensures Sum([c]) == c.volume
  {
    assert [c][..0] == [];
  }

  /** No m cells of a descending sequence sum to more than its first m. */
  lemma {:induction false} TopIsBest(s: seq<VolumeCell>, t: seq<VolumeCell>)
    requires Descending(s) && multiset(t) <= multiset(s)
    ensures |t| <= |s| && Sum(t) <= Sum(s[..|t|])
    decreases |s|, 1
  {
    SubmultisetSize(t, s);
    if t == [] {
      assert s[..0] == t;
    } else {
      assert s == [s[0]] + s[1..];
      TopIsBestStep(s[0], s[1..], t);
    }
  }

  lemma {:induction false} TopIsBestStep(x: VolumeCell, rest: seq<VolumeCell>, t: seq<VolumeCell>)
    requires Descending([x] + rest) && multiset(t) <= multiset([x] + rest) && t != []
    requires |t| <= |rest| + 1
    ensures Sum(t) <= Sum(([x] + rest)[..|t|])
    decreases |rest| + 1, 0
  {
    hide Sum, Descending;
    DescendingTail(x, rest);
    if x in t {
      var t' := WithoutOne(t, x, rest);
      TopIsBest(rest, t');
      HeadSum(x, rest, |t'|);
    } else {
      NotInHead(t, x, rest);
      TopIsBest(rest, t);
      ShiftedWindow([x] + rest, |t|);
      assert rest[..|t|] == ([x] + rest)[1..|t| + 1];
    }
  }

  lemma DescendingTail(x: VolumeCell, rest: seq<VolumeCell>)
    requires Descending([x] + rest)
    ensures Descending(rest)
  {
    assert forall i :: 0 <= i < |rest| ==> ([x] + rest)[i + 1] == rest[i];
  }

  lemma HeadSum(x: VolumeCell, rest: seq<VolumeCell>, m: nat)
    requires m <= |rest|
    ensures Sum(([x] + rest)[..m + 1]) == x.volume + Sum(rest[..m])
  {
    assert ([x] + rest)[..m + 1] == [x] + rest[..m];
    SumSplit([x], rest[..m]);
    SingleSum(x);
  }

  lemma WithoutOne(t: seq<VolumeCell>, x: VolumeCell, rest: seq<VolumeCell>) returns (t': seq<VolumeCell>)
    requires x in t && multiset(t) <= multiset([x] + rest)
    ensures |t'| == |t| - 1 && multiset(t') <= multiset(rest) && Sum(t) == Sum(t') + x.volume
  {
    hide Sum;
    assert multiset([x] + rest) == multiset{x} + multiset(rest);
    var i :| 0 <= i < |t| && t[i] == x;
    var l, r := t[..i], t[i + 1..];
    t' := l + r;
    assert t == l + [x] + r;
    assert multiset(t) == multiset(t') + multiset{x};
    SumSplit(l + [x], r);
    SumSplit(l, [x]);
    SumSplit(l, r);
    SingleSum(x);
    CancelOne(multiset(t'), multiset(rest), x);
  }

  lemma CancelOne(a: multiset<VolumeCell>, b: multiset<VolumeCell>, x: VolumeCell)
    requires a + multiset{x} <= multiset{x} + b
    ensures a <= b
  {
    forall c ensures a[c] <= b[c] {
      assert (a + multiset{x})[c] <= (multiset{x} + b)[c];
    }
  }

  lemma NotInHead(t: seq<VolumeCell>, x: VolumeCell, rest: seq<VolumeCell>)
    requires x !in t && multiset(t) <= multiset([x] + rest)
    ensures multiset(t) <= multiset(rest)
  {
    assert multiset([x] + rest) == multiset{x} + multiset(rest);
    assert multiset(t)[x] == 0;
  }

  lemma SubmultisetSize(t: seq<VolumeCell>, s: seq<VolumeCell>)
    requires multiset(t) <= multiset(s)
    ensures |t| <= |s|
  {
    assert |multiset(s)| == |multiset(s) - multiset(t)| + |multiset(t)|;
  }

  /** The value area is the smallest possible: no choice of fewer cells reaches the target. The empty
      choice forces the one exception, a target that is not positive. */
  lemma ValueAreaIsMinimalIff(cells: seq<VolumeCell>, target: real, k: nat)
    requires IsCut(SortedByVolume(cells), target, k)
    ensures (forall t: seq<VolumeCell> :: multiset(t) <= multiset(cells) && |t| < k ==> Sum(t) < target)
            <==> cells == [] || target > 0.0
  {
    var sorted := SortedByVolume(cells);
    assert |sorted| == |multiset(cells)| == |cells|;
    SortDescends(cells);
    if cells != [] && target <= 0.0 {
      assert multiset([]) <= multiset(cells) && Sum([]) >= target;
    }
    if cells == [] || target > 0.0 {
      forall t: seq<VolumeCell> | multiset(t) <= multiset(cells) && |t| < k ensures Sum(t) < target {
        TopIsBest(sorted, t);
      }
    }
  }

  /** The point of control lies in the value area whenever there are cells. */
  lemma PocInValueArea(cells: seq<VolumeCell>, target: real, k: nat)
    requires cells != [] && IsCut(SortedByVolume(cells), target, k)
    ensures cells[FirstMax(cells)] in SortedByVolume(cells)[..k]
  {
    SortedHead(cells, FirstMax(cells));
    assert SortedByVolume(cells)[..k][0] == cells[FirstMax(cells)];
  }
}
