/** Fermat's little theorem, by multiplying all nonzero residues by one of them. */
module Fermat {
  import opened Arithmetic
  import opened Counting
  import opened Modular

  function Prod(s: seq<int>): int {
    if s == [] then 1 else Prod(s[..|s| - 1]) * s[|s| - 1]
  }

  function Scaled(a: int, n: nat, p: int): (s: seq<int>)
    requires p > 0
    ensures |s| == n && forall i :: 0 <= i < n ==> s[i] == (a * (i + 1)) % p
  {
    seq(n, i => (a * (i + 1)) % p)
  }

  // ---------- products do not depend on order ----------

  lemma {:induction false} ProdRemove(s: seq<int>, j: nat)
    requires j < |s|
    ensures Prod(s) == Prod(s[..j] + s[j + 1..]) * s[j]
  {
    var n := |s| - 1;
    if j == n {
      assert s[..j] + s[j + 1..] == s[..n];
    } else {
      var init := s[..n];
      var rest := s[..j] + s[j + 1..];
      ProdRemove(init, j);
      assert rest[..n - 1] == init[..j] + init[j + 1..] && rest[n - 1] == s[n];
      MulSwap(Prod(rest[..n - 1]), s[j], s[n]);
    }
  }

  lemma {:induction false} ProdPermute(s: seq<int>, t: seq<int>)
    requires multiset(s) == multiset(t)
    ensures Prod(s) == Prod(t)
  {
    if s == [] {
      assert |multiset(t)| == 0;
    } else {
      var n := |s| - 1;
      assert s[n] in multiset(t);
      var j :| 0 <= j < |t| && t[j] == s[n];
      RemoveOne(s, n);
      RemoveOne(t, j);
      assert s[..n] + s[n + 1..] == s[..n];
      ProdPermute(s[..n], t[..j] + t[j + 1..]);
      ProdRemove(t, j);
    }
  }

  /** n different numbers from 1 to n are a permutation of them all. */
  lemma FillsRange(t: seq<int>)
    requires Distinct(t) && forall i :: 0 <= i < |t| ==> 1 <= t[i] <= |t|
    ensures multiset(t) == multiset(Range(|t|))
  {
    var r := Range(|t|);
    DistinctElements(t);
    DistinctElements(r);
    forall x | x in Elements(t)
      ensures x in Elements(r)
    {
      assert r[x - 1] == x;
    }
    SubsetSameSize(Elements(t), Elements(r));
  }

  // ---------- scaling all residues ----------

  lemma MulPairs(u: int, v: int, a: int, n: int)
    ensures (u * v) * (a * n) == (a * u) * (v * n)
  {
  }

  lemma {:induction false} ProdScaled(a: int, n: nat, p: int)
    requires p > 0
    ensures Cong(Prod(Scaled(a, n, p)), Power(a, n) * Prod(Range(n)), p)
  {
    hide Cong;
    if n == 0 {
      CongBy(1, 1, 0, p);
    } else {
      var s, r := Scaled(a, n, p), Range(n);
      ProdScaled(a, n - 1, p);
      assert s[..n - 1] == Scaled(a, n - 1, p) && r[..n - 1] == Range(n - 1);
      ModIsCong(a * n, p);
      var u, v := Power(a, n - 1), Prod(Range(n - 1));
      CongMul(Prod(s[..n - 1]), u * v, s[n - 1], a * n, p);
      MulPairs(u, v, a, n);
    }
  }

  lemma {:induction false} RangeProdNonzero(n: nat, p: int)
    requires IsPrime(p) && n < p
    ensures Prod(Range(n)) > 0 && Prod(Range(n)) % p != 0
  {
    if n == 0 {
      DivUnique(1, p, 0, 1);
    } else {
      RangeProdNonzero(n - 1, p);
      assert Range(n)[..n - 1] == Range(n - 1);
      var q := Prod(Range(n - 1));
      MulMono(1, q, n);
      NonzeroTimes(q, n, p);
    }
  }

  lemma NonzeroTimes(a: nat, b: int, p: int)
    requires IsPrime(p) && a % p != 0 && 0 < b < p
    ensures (a * b) % p != 0
  {
    if (a * b) % p == 0 {
      DivUnique(0, p, 0, 0);
      assert a * 0 == 0;
      Cancel(a, b, 0, p);
      SmallCong(b, 0, p);
    }
  }

  lemma ScaledFillsRange(a: nat, p: int)
    requires IsPrime(p) && a % p != 0
    ensures multiset(Scaled(a, p - 1, p)) == multiset(Range(p - 1))
  {
    var t := Scaled(a, p - 1, p);
    forall i | 0 <= i < |t|
      ensures 1 <= t[i] <= |t|
    {
      NonzeroTimes(a, i + 1, p);
      DivMod(a * (i + 1), p);
    }
    forall i, j | 0 <= i < j < |t|
      ensures t[i] != t[j]
    {
      if t[i] == t[j] {
        Cancel(a, i + 1, j + 1, p);
        SmallCong(i + 1, j + 1, p);
      }
    }
    FillsRange(t);
  }

  lemma FermatLittle(a: nat, p: int)
    requires IsPrime(p) && a % p != 0
    ensures Cong(Power(a, p - 1), 1, p)
  {
    hide Cong, Power, Prod;
    var r := Prod(Range(p - 1));
    ScaledFillsRange(a, p);
    ProdPermute(Scaled(a, p - 1, p), Range(p - 1));
    ProdScaled(a, p - 1, p);
    RangeProdNonzero(p - 1, p);
    assert r * 1 == r && Power(a, p - 1) * r == r * Power(a, p - 1);
    CongSymmetric(r * 1, r * Power(a, p - 1), p);
    Cancel(r, Power(a, p - 1), 1, p);
  }
}
