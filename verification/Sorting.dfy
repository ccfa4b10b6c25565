// Go's sort.Slice: some rearrangement of the input in ascending key order, with no promise about
// the order of equal keys. Callers know the contract only.

module Sorting {

  ghost predicate SortedBy<T>(s: seq<T>, key: T -> int) {
    forall i, j :: 0 <= i < j < |s| ==> key(s[i]) <= key(s[j])
  }

  method Sort<T>(s: seq<T>, key: T -> int) returns (r: seq<T>)
    ensures SortedBy(r, key)
    ensures multiset(r) == multiset(s)
  {
    r := [];
    for n := 0 to |s|
      invariant SortedBy(r, key)
      invariant multiset(r) == multiset(s[..n])
    {
      assert s[..n + 1] == s[..n] + [s[n]];
      r := Insert(r, s[n], key);
    }
    assert s[..|s|] == s;
  }

  method Insert<T>(s: seq<T>, x: T, key: T -> int) returns (r: seq<T>)
    requires SortedBy(s, key)
    ensures SortedBy(r, key)
    ensures multiset(r) == multiset(s) + multiset{x}
  {
    var i := 0;
    while i < |s| && key(s[i]) <= key(x)
      invariant 0 <= i <= |s|
      invariant forall j :: 0 <= j < i ==> key(s[j]) <= key(x)
    {
      i := i + 1;
    }
    r := s[..i] + [x] + s[i..];
    InsertedInOrder(s, i, x, key);
    InsertedOnce(s, i, x);
  }

  lemma InsertedInOrder<T>(s: seq<T>, i: nat, x: T, key: T -> int)
    requires SortedBy(s, key) && i <= |s|
    requires forall j :: 0 <= j < i ==> key(s[j]) <= key(x)
    requires i < |s| ==> key(x) <= key(s[i])
    ensures SortedBy(s[..i] + [x] + s[i..], key)
  {
    var r := s[..i] + [x] + s[i..];
    forall j, k | 0 <= j < k < |r| ensures key(r[j]) <= key(r[k]) {
      var l, m := if j < i then j else j - 1, if k <= i then k else k - 1;
      if j == i {
        assert key(s[i]) <= key(s[m]) && r[k] == s[m];
      } else if k == i {
        assert r[j] == s[j];
      } else {
        assert r[j] == s[l] && r[k] == s[m];
      }
    }
  }

  lemma InsertedOnce<T>(s: seq<T>, i: nat, x: T)
    requires i <= |s|
    ensures multiset(s[..i] + [x] + s[i..]) == multiset(s) + multiset{x}
  {
    assert s == s[..i] + s[i..];
    assert multiset(s[..i] + [x] + s[i..]) == multiset(s[..i]) + multiset{x} + multiset(s[i..]);
  }
}
