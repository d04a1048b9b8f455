/** Sequences without repetition and counting with them. */
module Counting {
  predicate Distinct<T(==)>(s: seq<T>) {
    forall i, j :: 0 <= i < j < |s| ==> s[i] != s[j]
  }

  function Elements<T>(s: seq<T>): set<T> { set x | x in s }

  lemma ElementsPush<T>(s: seq<T>, x: T)
    ensures Elements(s + [x]) == Elements(s) + {x}
  {
  }

  lemma {:induction false} DistinctElements<T>(s: seq<T>)
    requires Distinct(s)
    ensures |Elements(s)| == |s| && multiset(s) == multiset(Elements(s))
  {
    if s == [] {
    } else {
      var n := |s| - 1;
      DistinctElements(s[..n]);
      assert s == s[..n] + [s[n]];
      assert Elements(s) == Elements(s[..n]) + {s[n]};
      assert s[n] !in Elements(s[..n]);
    }
  }

  /** Sets inside one another with equally many members are equal. */
  lemma SubsetSameSize<T>(s: set<T>, t: set<T>)
    requires s <= t && |s| == |t|
    ensures s == t
  {
    assert t == s + (t - s) && |t| == |s| + |t - s|;
  }

  lemma SubsetSize<T>(s: set<T>, t: set<T>)
    requires s <= t
    ensures |s| <= |t|
  {
    assert t == s + (t - s) && |t| == |s| + |t - s|;
  }

  lemma RemoveOne<T>(t: seq<T>, j: nat)
    requires j < |t|
    ensures multiset(t[..j] + t[j + 1..]) == multiset(t) - multiset{t[j]}
  {
    assert t == t[..j] + [t[j]] + t[j + 1..];
  }

  function Range(n: nat): (s: seq<int>)
    ensures |s| == n && forall i :: 0 <= i < n ==> s[i] == i + 1
  {
    seq(n, i => i + 1)
  }

  /** n different numbers from 1 to m: n is at most m. */
  lemma Pigeonhole(t: seq<int>, m: nat)
    requires Distinct(t) && forall i :: 0 <= i < |t| ==> 1 <= t[i] <= m
    ensures |t| <= m
  {
    var r := Range(m);
    DistinctElements(t);
    DistinctElements(r);
    forall x | x in Elements(t)
      ensures x in Elements(r)
    {
      assert r[x - 1] == x;
    }
    var rest := Elements(r) - Elements(t);
    assert Elements(r) == Elements(t) + rest && |Elements(r)| == |Elements(t)| + |rest|;
  }
}
