/** Congruences, powers, primes and inverses: the number theory the quota field is built on. */
module Modular {
  import opened Arithmetic

  predicate Cong(a: int, b: int, m: int)
    requires m > 0
  {
    a % m == b % m
  }

  lemma CongRefl(a: int, m: int)
    requires m > 0
    ensures Cong(a, a, m)
  {
  }

  lemma CongSymmetric(a: int, b: int, m: int)
    requires m > 0 && Cong(a, b, m)
    ensures Cong(b, a, m)
  {
  }

  lemma CongTrans(a: int, b: int, c: int, m: int)
    requires m > 0 && Cong(a, b, m) && Cong(b, c, m)
    ensures Cong(a, c, m)
  {
  }

  lemma ModShift(a: int, k: int, m: int)
    requires m > 0
    ensures (a + k * m) % m == a % m
  {
    DivMod(a, m);
    assert a + k * m == (a / m + k) * m + a % m;
    DivUnique(a + k * m, m, a / m + k, a % m);
  }

  lemma CongBy(a: int, b: int, k: int, m: int)
    requires m > 0 && a == b + k * m
    ensures Cong(a, b, m)
  {
    ModShift(b, k, m);
  }

  /** Congruent numbers differ by a multiple of the modulus. */
  lemma CongQuotient(a: int, b: int, m: int) returns (k: int)
    requires m > 0 && Cong(a, b, m)
    ensures a == b + k * m
  {
    DivMod(a, m);
    DivMod(b, m);
    k := a / m - b / m;
    assert (a / m) * m == (b / m) * m + k * m;
  }

  lemma CongAdd(a: int, a': int, b: int, b': int, m: int)
    requires m > 0 && Cong(a, a', m) && Cong(b, b', m)
    ensures Cong(a + b, a' + b', m)
  {
    hide Cong;
    var k := CongQuotient(a, a', m);
    var l := CongQuotient(b, b', m);
    assert a + b == a' + b' + (k + l) * m;
    CongBy(a + b, a' + b', k + l, m);
  }

  lemma CongSub(a: int, a': int, b: int, b': int, m: int)
    requires m > 0 && Cong(a, a', m) && Cong(b, b', m)
    ensures Cong(a - b, a' - b', m)
  {
    hide Cong;
    var k := CongQuotient(a, a', m);
    var l := CongQuotient(b, b', m);
    assert a - b == a' - b' + (k - l) * m;
    CongBy(a - b, a' - b', k - l, m);
  }

  lemma CongMul(a: int, a': int, b: int, b': int, m: int)
    requires m > 0 && Cong(a, a', m) && Cong(b, b', m)
    ensures Cong(a * b, a' * b', m)
  {
    hide Cong;
    var k := CongQuotient(a, a', m);
    var l := CongQuotient(b, b', m);
    MulExpand(a', k, b', l, m);
    CongBy(a * b, a' * b', a' * l + k * b' + k * l * m, m);
  }

  lemma MulExpand(a: int, k: int, b: int, l: int, m: int)
    ensures (a + k * m) * (b + l * m) == a * b + (a * l + k * b + k * l * m) * m
  {
  }

  lemma ModIsCong(a: int, m: int)
    requires m > 0
    ensures Cong(a % m, a, m)
  {
  }

  lemma SmallCong(a: int, b: int, m: int)
    requires 0 <= a < m && 0 <= b < m && Cong(a, b, m)
    ensures a == b
  {
  }

  // ---------- powers ----------

  function Power(b: int, e: nat): int {
    if e == 0 then 1 else b * Power(b, e - 1)
  }

  /** Squaring the base halves the exponent. */
  lemma {:induction false} PowerSquare(b: int, e: nat)
    ensures Power(b * b, e) == Power(b, 2 * e)
  {
    if e == 0 {
    } else {
      PowerSquare(b, e - 1);
      assert Power(b, 2 * e) == b * (b * Power(b, 2 * e - 2));
      MulAssoc(b, b, Power(b, 2 * e - 2));
    }
  }

  lemma {:induction false} PowerCong(a: int, b: int, e: nat, m: int)
    requires m > 0 && Cong(a, b, m)
    ensures Cong(Power(a, e), Power(b, e), m)
  {
    hide Cong;
    if e == 0 {
      CongBy(1, 1, 0, m);
    } else {
      PowerCong(a, b, e - 1, m);
      CongMul(a, b, Power(a, e - 1), Power(b, e - 1), m);
    }
  }

  // ---------- primes and inverses ----------

  predicate IsPrime(p: int) {
    p > 1 && forall d :: 1 < d < p ==> p % d != 0
  }

  /** Extended Euclid: a common divisor written as a combination of both numbers. */
  lemma {:induction false} Bezout(a: nat, b: nat) returns (g: nat, x: int, y: int, s: nat, t: nat)
    requires a > 0
    ensures g > 0 && a == s * g && b == t * g && a * x + b * y == g
    decreases b
  {
    if b == 0 {
      g, x, y, s, t := a, 1, 0, 1, 0;
    } else {
      var q, r := a / b, a % b;
      DivMod(a, b);
      MulMono(0, q, b);
      var x', y', s', t';
      g, x', y', s', t' := Bezout(b, r);
      x, y, t := y', x' - q * y', s';
      s := q * s' + t';
      BezoutStep(a, b, q, r, x', y', s', t', g);
    }
  }

  lemma BezoutStep(a: int, b: int, q: int, r: int, x: int, y: int, s: int, t: int, g: int)
    requires a == q * b + r && b == s * g && r == t * g && b * x + r * y == g
    ensures a == (q * s + t) * g
    ensures a * y + b * (x - q * y) == g
  {
  }

  lemma DivisorOfPrime(p: int, g: int, t: int)
    requires IsPrime(p) && g > 0 && p == t * g
    ensures g == 1 || g == p
  {
    if 1 < g < p {
      DivUnique(p, g, t, 0);
    }
    if g > p {
      assert t > 0;
      MulMono(1, t, g);
    }
  }

  /** Modulo a prime every number outside the zero class has an inverse. */
  lemma HasInverse(a: nat, p: int) returns (x: int)
    requires IsPrime(p) && a % p != 0
    ensures Cong(a * x, 1, p)
  {
    var g, u, y, s, t := Bezout(a, p);
    DivisorOfPrime(p, g, t);
    if g == p {
      DivUnique(a, p, s, 0);
    }
    x := u;
    assert a * u == 1 + (-y) * p;
    CongBy(a * u, 1, -y, p);
  }

  lemma InverseCancels(a: int, x: int, u: int, p: int)
    requires p > 0 && Cong(a * x, 1, p)
    ensures Cong((a * u) * x, u, p)
  {
    hide Cong;
    CongRefl(u, p);
    CongMul(a * x, 1, u, u, p);
    MulSwap(a, x, u);
  }

  /** Nonzero classes modulo a prime cancel. */
  lemma Cancel(a: nat, u: int, v: int, p: int)
    requires IsPrime(p) && a % p != 0 && Cong(a * u, a * v, p)
    ensures Cong(u, v, p)
  {
    var x := HasInverse(a, p);
    hide Cong;
    CongRefl(x, p);
    CongMul(a * u, a * v, x, x, p);
    InverseCancels(a, x, u, p);
    InverseCancels(a, x, v, p);
    CongSymmetric((a * u) * x, u, p);
    CongTrans(u, (a * u) * x, (a * v) * x, p);
    CongTrans(u, (a * v) * x, v, p);
  }
}
