// Counting facts about sequences of worker indices.
module Pigeonhole {

  predicate Distinct<T(==)>(s: seq<T>) {
    forall i, j :: 0 <= i < j < |s| ==> s[i] != s[j]
  }

  function Range(n: nat): (r: set<nat>)
    ensures forall i: nat :: i in r <==> i < n
  {
    if n == 0 then {} else Range(n - 1) + {n - 1}
  }

  predicate Bounded(s: seq<nat>, n: nat) {
    forall k :: 0 <= k < |s| ==> s[k] < n
  }

  function Elements<T>(s: seq<T>): set<T> {
    set x | x in s
  }

  lemma {:induction false} RangeSize(n: nat)
    ensures |Range(n)| == n
  {
    if n > 0 {
      RangeSize(n - 1);
    }
  }

  lemma {:induction false} DistinctSize<T>(s: seq<T>)
    requires Distinct(s)
    ensures |Elements(s)| == |s|
  {
    if s != [] {
      DistinctSize(s[1..]);
      assert Elements(s) == {s[0]} + Elements(s[1..]);
      assert s[0] !in Elements(s[1..]);
    }
  }

  lemma SubsetSize<T>(a: set<T>, b: set<T>)
    requires a <= b
    ensures |a| <= |b|
    ensures |a| == |b| ==> a == b
  {
    assert b == a + (b - a);
    if |a| == |b| {
      assert b - a == {};
    }
  }

  // Distinct indices below n number at most n, and n of them are all of them.
  lemma DistinctBounded(s: seq<nat>, n: nat)
    requires Distinct(s)
    requires Bounded(s, n)
    ensures |s| <= n
    ensures |s| == n ==> forall i: nat :: i < n ==> i in s
  {
    DistinctSize(s);
    RangeSize(n);
    assert Elements(s) <= Range(n);
    SubsetSize(Elements(s), Range(n));
    if |s| == n {
      forall i: nat | i < n ensures i in s {
        assert i in Range(n);
      }
    }
  }

  lemma AllInMeansFull(s: seq<nat>, n: nat)
    requires Distinct(s) && Bounded(s, n)
    requires forall w: nat :: w < n ==> w in s
    ensures |s| == n
  {
    DistinctSize(s);
    RangeSize(n);
    assert Elements(s) == Range(n);
  }
}
