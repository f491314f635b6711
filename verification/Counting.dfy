/** Finite counting: the pigeonhole principle for sequences of numbers. */
module Counting {

  ghost predicate Distinct<T>(s: seq<T>) {
    forall i, j :: 0 <= i < j < |s| ==> s[i] != s[j]
  }

  function Range(n: nat): (r: set<nat>)
    ensures |r| == n
    ensures forall k :: k in r <==> 0 <= k < n
  {
    if n == 0 then {} else Range(n - 1) + {n - 1}
  }

  lemma {:induction false} SubsetIsNoLarger<T>(a: set<T>, b: set<T>)
    requires a <= b
    ensures |a| <= |b|
    ensures |a| == |b| ==> a == b
  {
    assert b == a + (b - a);
    assert |b| == |a| + |b - a|;
  }

  lemma {:induction false} DistinctSize<T>(s: seq<T>)
    requires Distinct(s)
    ensures |set x | x in s| == |s|
  {
    if s != [] {
      var m := |s| - 1;
      var init := s[..m];
      DistinctSize(init);
      assert s == init + [s[m]];
      assert (set x | x in s) == (set x | x in init) + {s[m]};
    }
  }

  /** Distinct members of a list of distinct members are no more than that. */
  lemma DistinctWithin<T>(a: seq<T>, b: seq<T>)
    requires Distinct(a) && Distinct(b) && forall x :: x in a ==> x in b
    ensures |a| <= |b|
  {
    DistinctSize(a);
    DistinctSize(b);
    SubsetIsNoLarger(set x | x in a, set x | x in b);
  }

  /** Distinct numbers below `n` are at most `n` many; if there are `n` of them, none is missing. */
  lemma Pigeonhole(s: seq<nat>, n: nat)
    requires Distinct(s) && forall i :: 0 <= i < |s| ==> s[i] < n
    ensures |s| <= n
    ensures |s| == n ==> forall k: nat :: k < n ==> k in s
  {
    var members := set x | x in s;
    DistinctSize(s);
    SubsetIsNoLarger(members, Range(n));
    if |s| == n {
      forall k: nat | k < n ensures k in s {
        assert k in members;
      }
    }
  }
}
