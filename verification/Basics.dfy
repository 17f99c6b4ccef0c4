/** Small shared definitions. */
module Basics {
  datatype Option<+T> = None | Some(value: T)

  /** An element of a non-empty set: which one stands for the iteration order of a hash map. */
  method Pick<T>(s: set<T>) returns (x: T)
    requires s != {}
    ensures x in s
  {
    x :| x in s;
  }

  /** Some fixed element, for proofs. */
  ghost function Chosen<T>(s: set<T>): (x: T)
    requires s != {}
    ensures x in s
  {
    var x :| x in s;
    x
  }

  /** One step of an insertion sort. */
  function InsertAt<T>(s: seq<T>, x: T, k: nat): (r: seq<T>)
    requires k <= |s|
    ensures |r| == |s| + 1
    ensures forall j :: 0 <= j < |r| ==> r[j] == if j < k then s[j] else if j == k then x else s[j - 1]
  {
    s[..k] + [x] + s[k..]
  }

  lemma InsertMembers<T>(s: seq<T>, x: T, k: nat)
    requires k <= |s|
    ensures forall y :: y in InsertAt(s, x, k) <==> y in s || y == x
  {
    var r := InsertAt(s, x, k);
    forall y | y in s ensures y in r {
      var i :| 0 <= i < |s| && s[i] == y;
      assert r[if i < k then i else i + 1] == y;
    }
    assert r[k] == x;
  }

  predicate Ascending(vs: seq<int>) {
    forall i, j :: 0 <= i < j < |vs| ==> vs[i] < vs[j]
  }

  /** The last one is the greatest, and the others are in front of it. */
  lemma LastAscending(vs: seq<int>)
    requires Ascending(vs) && vs != []
    ensures vs == vs[..|vs| - 1] + [vs[|vs| - 1]]
    ensures forall x :: x in vs ==> x <= vs[|vs| - 1]
    ensures forall x :: x in vs[..|vs| - 1] <==> x in vs && x != vs[|vs| - 1]
  {
    assert vs == vs[..|vs| - 1] + [vs[|vs| - 1]];
  }

  /** Two strictly ascending lists of the same numbers are the same list. */
  lemma {:induction false} SameAscending(u: seq<int>, w: seq<int>)
    requires Ascending(u) && Ascending(w)
    requires forall x :: x in u <==> x in w
    ensures u == w
    decreases |u|
  {
    assert |w| > 0 ==> w[0] in w;
    if u != [] {
      assert u[0] in u;
      LastAscending(u);
      LastAscending(w);
      assert u[|u| - 1] in u && w[|w| - 1] in w;
      var u1, w1 := u[..|u| - 1], w[..|w| - 1];
      forall x ensures x in u1 <==> x in w1 {
        assert x in u <==> x in w;
      }
      SameAscending(u1, w1);
    }
  }

  lemma TakeNext<T>(s: seq<T>, i: nat)
    requires i < |s|
    ensures s[..i + 1] == s[..i] + [s[i]]
  {
  }
}
