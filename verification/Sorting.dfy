/** Stable insertion sort by a strict weak order, and permutations seen through places. */
module Sorting {
  import opened Counting

  /** `before` is a strict weak order: asymmetric, and not-before is transitive. */
  ghost predicate WeakOrder<T(!new)>(before: (T, T) -> bool) {
    && (forall a, b :: before(a, b) ==> !before(b, a))
    && (forall a, b, c :: !before(a, b) && !before(b, c) ==> !before(a, c))
  }

  ghost predicate Ordered<T>(before: (T, T) -> bool, s: seq<T>) {
    forall i, j :: 0 <= i < j < |s| ==> !before(s[j], s[i])
  }

  /** Insert behind every entry that `x` does not come before. */
  function Insert<T>(before: (T, T) -> bool, sorted: seq<T>, x: T): seq<T> {
    if sorted == [] then [x]
    else
      var n := |sorted| - 1;
      if before(x, sorted[n]) then Insert(before, sorted[..n], x) + [sorted[n]] else sorted + [x]
  }

  function Sort<T>(before: (T, T) -> bool, s: seq<T>): seq<T> {
    if s == [] then [] else Insert(before, Sort(before, s[..|s| - 1]), s[|s| - 1])
  }

  /** Nothing in the list has to come after `x`. */
  ghost predicate NoneAfter<T>(before: (T, T) -> bool, s: seq<T>, x: T) {
    forall i :: 0 <= i < |s| ==> !before(x, s[i])
  }

  lemma OrderedSnoc<T>(before: (T, T) -> bool, s: seq<T>, x: T)
    ensures Ordered(before, s + [x]) <==> Ordered(before, s) && NoneAfter(before, s, x)
  {
    var all := s + [x];
    assert forall i :: 0 <= i < |s| ==> all[i] == s[i];
    if Ordered(before, all) {
      assert all[|s|] == x;
    }
  }

  lemma NoneAfterMembers<T>(before: (T, T) -> bool, s: seq<T>, others: seq<T>, x: T, y: T)
    requires multiset(s) == multiset(others) + multiset{x}
    requires NoneAfter(before, others, y) && !before(y, x)
    ensures NoneAfter(before, s, y)
  {
    forall i | 0 <= i < |s|
      ensures !before(y, s[i])
    {
      assert s[i] in multiset(s);
    }
  }

  lemma {:induction false} InsertOrdered<T(!new)>(before: (T, T) -> bool, sorted: seq<T>, x: T)
    requires WeakOrder(before) && Ordered(before, sorted)
    ensures Ordered(before, Insert(before, sorted, x))
    ensures multiset(Insert(before, sorted, x)) == multiset(sorted) + multiset{x}
  {
    if sorted == [] {
    } else {
      var init, last := sorted[..|sorted| - 1], sorted[|sorted| - 1];
      assert sorted == init + [last];
      OrderedSnoc(before, init, last);
      if before(x, last) {
        InsertOrdered(before, init, x);
        NoneAfterMembers(before, Insert(before, init, x), init, x, last);
        OrderedSnoc(before, Insert(before, init, x), last);
      } else {
        OrderedSnoc(before, sorted, x);
      }
    }
  }

  /** Sorting orders the list and keeps its entries. */
  lemma {:induction false} SortSorts<T(!new)>(before: (T, T) -> bool, s: seq<T>)
    requires WeakOrder(before)
    ensures Ordered(before, Sort(before, s)) && multiset(Sort(before, s)) == multiset(s)
    ensures |Sort(before, s)| == |s|
  {
    hide WeakOrder, Ordered;
    if s == [] {
      assert Ordered(before, []) by { NothingOrdered(before); }
    } else {
      var init, last := s[..|s| - 1], s[|s| - 1];
      assert s == init + [last];
      SortSorts(before, init);
      InsertOrdered(before, Sort(before, init), last);
      assert |multiset(Sort(before, s))| == |multiset(s)|;
    }
  }

  lemma NothingOrdered<T>(before: (T, T) -> bool)
    ensures Ordered(before, [])
  {
  }

  lemma SortTwo<T>(before: (T, T) -> bool, a: T, b: T)
    ensures Sort(before, [a, b]) == if before(b, a) then [b, a] else [a, b]
  {
    assert [a][..0] == [] && [a, b][..1] == [a];
    assert Sort(before, [a]) == Insert(before, Sort(before, []), a) == [a];
    assert Insert(before, [a][..0], b) == [b];
  }

  /** Two entries of one permutation sit at two places of the other. */
  lemma TwoPlaces<T>(s: seq<T>, t: seq<T>, i: nat, j: nat) returns (p: nat, q: nat)
    requires multiset(s) == multiset(t) && i < |s| && j < |s| && i != j
    ensures p < |t| && q < |t| && p != q && t[p] == s[i] && t[q] == s[j]
  {
    p := PlaceOf(s, t, i);
    RemoveOne(s, i);
    RemoveOne(t, p);
    var q' := PlaceOf(s[..i] + s[i + 1..], t[..p] + t[p + 1..], if j < i then j else j - 1);
    q := if q' < p then q' else q' + 1;
  }

  lemma PlaceOf<T>(s: seq<T>, t: seq<T>, i: nat) returns (p: nat)
    requires multiset(s) == multiset(t) && i < |s|
    ensures p < |t| && t[p] == s[i]
  {
    assert s[i] in multiset(t);
    p :| 0 <= p < |t| && t[p] == s[i];
  }
}
