/** The few facts about products, quotients and powers of two the other modules need. */
module Arithmetic {
  lemma MulMono(a: int, b: int, c: int)
    requires a <= b && 0 <= c
    ensures a * c <= b * c
  {
  }

  lemma MulAssoc(a: int, b: int, c: int)
    ensures (a * b) * c == a * (b * c)
  {
  }

  lemma MulSwap(a: int, b: int, c: int)
    ensures (a * b) * c == (a * c) * b
  {
  }

  lemma DivMod(n: int, d: int)
    requires d > 0
    ensures n == (n / d) * d + n % d && 0 <= n % d < d
  {
  }

  lemma DivUnique(n: int, d: int, q: int, r: int)
    requires 0 <= r < d && n == q * d + r
    ensures n / d == q && n % d == r
  {
    var q' := n / d;
    DivMod(n, d);
    if q' > q {
      MulMono(q + 1, q', d);
    } else if q' < q {
      MulMono(q' + 1, q, d);
    }
  }

  function Pow2(n: nat): (p: nat)
    ensures p > 0
  {
    if n == 0 then 1 else 2 * Pow2(n - 1)
  }

  lemma Pow2Step(k: nat)
    ensures Pow2(k + 1) == 2 * Pow2(k)
  {
  }

  lemma {:induction false} Pow2Plus(a: nat, b: nat)
    ensures Pow2(a + b) == Pow2(a) * Pow2(b)
  {
    if a == 0 {
    } else {
      hide Pow2;
      Pow2Plus(a - 1, b);
      Pow2Step(a - 1 + b);
      Pow2Step(a - 1);
      MulAssoc(2, Pow2(a - 1), Pow2(b));
    }
  }

  lemma {:induction false} Pow2Mono(a: nat, b: nat)
    requires a <= b
    ensures Pow2(a) <= Pow2(b)
  {
    if a == b {
    } else {
      Pow2Mono(a, b - 1);
    }
  }

  lemma SmallPow2()
    ensures Pow2(1) == 2 && Pow2(4) == 16
  {
  }

  /** `index` after `k` right shifts. */
  function Shr(index: nat, k: nat): nat {
    if k == 0 then index else Shr(index, k - 1) / 2
  }

  lemma ShrUnfolds(index: nat, k: nat)
    ensures Shr(index, 0) == index && Shr(index, k + 1) == Shr(index, k) / 2
  {
  }

  function Bit(index: nat, k: nat): (b: nat)
    ensures b == 0 || b == 1
  {
    Shr(index, k) % 2
  }

  /** Start at node `i` and follow the low `k` bits of `index` down, most significant first. */
  function Descend(i: nat, k: nat, index: nat): nat
    decreases k
  {
    if k == 0 then i else Descend(2 * i + Bit(index, k - 1), k - 1, index)
  }

  lemma {:induction false} DescendFrom(i: nat, k: nat, index: nat)
    ensures Descend(i, k, index) == i * Pow2(k) + Descend(0, k, index)
    ensures Descend(0, k, index) < Pow2(k)
    decreases k
  {
    if k == 0 {
    } else {
      var bit, p := Bit(index, k - 1), Pow2(k - 1);
      DescendFrom(2 * i + bit, k - 1, index);
      DescendFrom(bit, k - 1, index);
      DoubleAndBit(i, bit, p);
    }
  }

  lemma DoubleAndBit(i: int, bit: int, p: int)
    requires bit == 0 || bit == 1
    ensures (2 * i + bit) * p == i * (2 * p) + bit * p
    ensures bit * p == if bit == 0 then 0 else p
  {
  }

  lemma {:induction false} ShiftSplit(index: nat, k: nat)
    ensures index == Shr(index, k) * Pow2(k) + Descend(0, k, index)
  {
    if k == 0 {
    } else {
      ShiftSplit(index, k - 1);
      DescendFrom(Bit(index, k - 1), k - 1, index);
      DoubleAndBit(Shr(index, k), Bit(index, k - 1), Pow2(k - 1));
    }
  }

  /** Following `k` bits down from the top reaches the index modulo 2^k. */
  lemma DescendIsMod(k: nat, index: nat)
    ensures Descend(0, k, index) == index % Pow2(k)
    ensures Shr(index, k) == index / Pow2(k)
  {
    ShiftSplit(index, k);
    DescendFrom(0, k, index);
    DivUnique(index, Pow2(k), Shr(index, k), Descend(0, k, index));
  }

  lemma SmallIndex(k: nat, index: nat)
    requires index < Pow2(k)
    ensures Descend(0, k, index) == index && Shr(index, k) == 0
  {
    DescendIsMod(k, index);
    DivUnique(index, Pow2(k), 0, index);
  }
}
