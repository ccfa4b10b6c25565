// Facts about sequences and sets that hold for any element type.

module Sequences {

  /** Some element of a nonempty set. */
  ghost function Pick<T>(s: set<T>): (x: T)
    requires s != {}
    ensures x in s
  {
    var x :| x in s; x
  }

  ghost predicate StrictlyAscending<T>(s: seq<T>, key: T -> int) {
    forall i, j :: 0 <= i < j < |s| ==> key(s[i]) < key(s[j])
  }

  ghost function Members<T>(s: seq<T>): set<T> {
    set x | x in s
  }

  /** A strictly ascending sequence is determined by its elements. */
  lemma {:induction false} AscendingUnique<T>(a: seq<T>, b: seq<T>, key: T -> int)
    requires StrictlyAscending(a, key) && StrictlyAscending(b, key) && Members(a) == Members(b)
    ensures a == b
  {
    EmptyMembers(a);
    EmptyMembers(b);
    if a != [] {
      var a', b', x, y := a[..|a| - 1], b[..|b| - 1], a[|a| - 1], b[|b| - 1];
      assert x in Members(a) && y in Members(b);
      LastIsHighest(a, y, key);
      LastIsHighest(b, x, key);
      MembersOfInit(a, key);
      MembersOfInit(b, key);
      AscendingUnique(a', b', key);
      assert a == a' + [x] && b == b' + [y];
    }
  }

  lemma EmptyMembers<T>(a: seq<T>)
    ensures a == [] <==> Members(a) == {}
  {
    if a != [] {
      assert a[0] in Members(a);
    }
  }

  lemma LastIsHighest<T>(a: seq<T>, x: T, key: T -> int)
    requires StrictlyAscending(a, key) && a != [] && x in a
    ensures x == a[|a| - 1] || key(x) < key(a[|a| - 1])
  {
  }

  lemma MembersOfInit<T>(a: seq<T>, key: T -> int)
    requires StrictlyAscending(a, key) && a != []
    ensures Members(a[..|a| - 1]) == Members(a) - {a[|a| - 1]}
  {
    var a', x := a[..|a| - 1], a[|a| - 1];
    assert a == a' + [x];
    forall y | y in a' ensures y != x {
      var i :| 0 <= i < |a'| && a'[i] == y;
      assert key(a[i]) < key(x);
    }
  }

  /** Where the last element of `a` sits in a permutation of `a`. */
  lemma PermutationStep<T>(a: seq<T>, b: seq<T>) returns (i: nat)
    requires a != [] && multiset(a) == multiset(b)
    ensures i < |b| && b[i] == a[|a| - 1]
    ensures multiset(a[..|a| - 1]) == multiset(b[..i] + b[i + 1..])
  {
    var a', x := a[..|a| - 1], a[|a| - 1];
    assert a == a' + [x];
    assert x in multiset(b);
    i :| 0 <= i < |b| && b[i] == x;
    assert b == b[..i] + [x] + b[i + 1..];
    assert multiset(a') == multiset(a) - multiset{x};
    assert multiset(b[..i] + b[i + 1..]) == multiset(b) - multiset{x};
  }

  lemma MembersOfPermutation<T>(a: seq<T>, b: seq<T>)
    requires multiset(a) == multiset(b)
    ensures forall x :: x in a <==> x in b
  {
    forall x ensures x in a <==> x in b {
      assert x in a <==> x in multiset(a);
      assert x in b <==> x in multiset(b);
    }
  }

  /** A sequence has as many distinct elements as positions exactly when none repeats. */
  lemma {:induction false} MembersSize<T>(s: seq<T>)
    ensures |Members(s)| <= |s|
    ensures |Members(s)| == |s| <==> forall i, j :: 0 <= i < j < |s| ==> s[i] != s[j]
  {
    if s == [] {
      EmptyMembers(s);
    } else {
      var init, x := s[..|s| - 1], s[|s| - 1];
      MembersSize(init);
      assert s == init + [x];
      assert Members(s) == Members(init) + {x};
      if x in init {
        var i :| 0 <= i < |init| && init[i] == x;
        assert s[i] == s[|s| - 1];
      }
    }
  }
}
