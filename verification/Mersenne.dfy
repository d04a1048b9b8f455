/** 2^61 - 1 is prime, by the Lucas-Lehmer argument: a divisor q with q*q <= P would make the 2^61
    powers of 2 + sqrt 3 pairwise different among fewer than q*q nonzero classes. */
module Mersenne {
  import opened Arithmetic
  import opened Counting
  import opened Modular

  const P: int := 0x1FFF_FFFF_FFFF_FFFF

  /** The number x + y * sqrt 3. */
  datatype Surd = Surd(x: int, y: int) {
    function Times(o: Surd): Surd { Surd(x * o.x + 3 * (y * o.y), x * o.y + y * o.x) }
    ghost predicate Equiv(o: Surd, m: int)
      requires m > 0
    {
      Cong(x, o.x, m) && Cong(y, o.y, m)
    }
  }

  /** (2 + sqrt 3)^n. */
  function W(n: nat): Surd {
    if n == 0 then Surd(1, 0) else var w := W(n - 1); Surd(2 * w.x + 3 * w.y, w.x + 2 * w.y)
  }

  lemma {:induction false} Norm(n: nat)
    ensures W(n).x * W(n).x - 3 * (W(n).y * W(n).y) == 1
  {
    hide W;
    WStep(n);
    if n == 0 {
    } else {
      Norm(n - 1);
      WStep(n - 1);
      NormStep(W(n - 1).x, W(n - 1).y);
    }
  }

  lemma NormStep(x: int, y: int)
    ensures (2 * x + 3 * y) * (2 * x + 3 * y) - 3 * ((x + 2 * y) * (x + 2 * y)) == x * x - 3 * (y * y)
  {
  }

  lemma WStep(n: nat)
    ensures W(0) == Surd(1, 0) && W(n + 1) == Surd(2 * W(n).x + 3 * W(n).y, W(n).x + 2 * W(n).y)
  {
  }

  lemma {:induction false} WAdd(m: nat, n: nat)
    ensures W(m + n) == W(m).Times(W(n))
  {
    hide W;
    if m == 0 {
      WStep(0);
    } else {
      WAdd(m - 1, n);
      WStep(m - 1);
      WStep(m - 1 + n);
      var a, b := W(m - 1), W(n);
      TimesStep(a.x, a.y, b.x, b.y);
    }
  }

  lemma TimesStep(x: int, y: int, u: int, v: int)
    ensures 2 * (x * u + 3 * (y * v)) + 3 * (x * v + y * u) == (2 * x + 3 * y) * u + 3 * ((x + 2 * y) * v)
    ensures (x * u + 3 * (y * v)) + 2 * (x * v + y * u) == (2 * x + 3 * y) * v + (x + 2 * y) * u
  {
  }

  lemma WDouble(n: nat)
    ensures W(2 * n) == Surd(2 * (W(n).x * W(n).x) - 1, 2 * (W(n).x * W(n).y))
  {
    hide W;
    WAdd(n, n);
    Norm(n);
  }

  // ---------- the Lucas-Lehmer sequence ----------

  function LL(i: nat): int {
    if i == 0 then 4 else (LL(i - 1) * LL(i - 1) - 2) % P
  }

  lemma LLStep(i: nat, s: int, t: int)
    requires LL(i) == s && (s * s - 2) % P == t
    ensures LL(i + 1) == t
  {
  }

  /** The 59 squarings modulo P end in zero. */
  lemma LL59()
    ensures LL(59) == 0
  {
    hide LL;
    assert LL(0) == 4 by { LLStart(); }
    LLStep(0, 0x4, 0xE);
    LLStep(1, 0xE, 0xC2);
    LLStep(2, 0xC2, 0x9302);
    LLStep(3, 0x9302, 0x546B4C02);
    LLStep(4, 0x546B4C02, 0x1BD696D9F03D3002);
    LLStep(5, 0x1BD696D9F03D3002, 0x500419BD96A2BEF);
    LLStep(6, 0x500419BD96A2BEF, 0x4DD06ED1EB7121);
    LLStep(7, 0x4DD06ED1EB7121, 0x1827DCD529888C0C);
    LLStep(8, 0x1827DCD529888C0C, 0x128EAE90EB37B67C);
    LLStep(9, 0x128EAE90EB37B67C, 0x1F30313B9A6D5616);
    LLStep(10, 0x1F30313B9A6D5616, 0x1277C605D70E0A3);
    LLStep(11, 0x1277C605D70E0A3, 0x8163FBAD5E46F51);
    LLStep(12, 0x8163FBAD5E46F51, 0x568BC1CCD739670);
    LLStep(13, 0x568BC1CCD739670, 0x1709CD33EE45874D);
    LLStep(14, 0x1709CD33EE45874D, 0x122AAF1E9A9FF7E3);
    LLStep(15, 0x122AAF1E9A9FF7E3, 0x1C978B58D4A2868B);
    LLStep(16, 0x1C978B58D4A2868B, 0x17FB091DAFE1A69B);
    LLStep(17, 0x17FB091DAFE1A69B, 0xF977C3DE407B3B5);
    LLStep(18, 0xF977C3DE407B3B5, 0x9FF86302A4BFE10);
    LLStep(19, 0x9FF86302A4BFE10, 0x1874BFCC03A445C3);
    LLStep(20, 0x1874BFCC03A445C3, 0x95E357910FC024D);
    LLStep(21, 0x95E357910FC024D, 0x5989A96C1C9A74B);
    LLStep(22, 0x5989A96C1C9A74B, 0x527D09D6A6BF66);
    LLStep(23, 0x527D09D6A6BF66, 0x1FF71A6A0A625333);
    LLStep(24, 0x1FF71A6A0A625333, 0x19174DCD19029B83);
    LLStep(25, 0x19174DCD19029B83, 0x1D61DABD6D9416A8);
    LLStep(26, 0x1D61DABD6D9416A8, 0x8718CB88E7F5F72);
    LLStep(27, 0x8718CB88E7F5F72, 0x1BADCA6AD832E950);
    LLStep(28, 0x1BADCA6AD832E950, 0x7025F84E8609771);
    LLStep(29, 0x7025F84E8609771, 0x143E4B6DF1BD19F4);
    LLStep(30, 0x143E4B6DF1BD19F4, 0xB80FFE326EB84A8);
    LLStep(31, 0xB80FFE326EB84A8, 0x1A016DF1F3597E50);
    LLStep(32, 0x1A016DF1F3597E50, 0x1D254A6E7642EB0A);
    LLStep(33, 0x1D254A6E7642EB0A, 0x1775492043DE8168);
    LLStep(34, 0x1775492043DE8168, 0x19AE2A1EE6657585);
    LLStep(35, 0x19AE2A1EE6657585, 0x9197C477C5E28B6);
    LLStep(36, 0x9197C477C5E28B6, 0x1238A93A84734EF3);
    LLStep(37, 0x1238A93A84734EF3, 0x7B3DC2C3F6EC911);
    LLStep(38, 0x7B3DC2C3F6EC911, 0x502B0003C2E77E2);
    LLStep(39, 0x502B0003C2E77E2, 0x74D67DB183484C7);
    LLStep(40, 0x74D67DB183484C7, 0x125DCAD27FC1916A);
    LLStep(41, 0x125DCAD27FC1916A, 0xC5E11A07D348E31);
    LLStep(42, 0xC5E11A07D348E31, 0x2943EA5E35F0EB5);
    LLStep(43, 0x2943EA5E35F0EB5, 0x3178F4B9EB78A1D);
    LLStep(44, 0x3178F4B9EB78A1D, 0xDC0E147381C663E);
    LLStep(45, 0xDC0E147381C663E, 0x6AF63E50C900270);
    LLStep(46, 0x6AF63E50C900270, 0x12AA5460F3CCFE39);
    LLStep(47, 0x12AA5460F3CCFE39, 0x1B5A0B14D4304E6E);
    LLStep(48, 0x1B5A0B14D4304E6E, 0xEE2B0453058AAC5);
    LLStep(49, 0xEE2B0453058AAC5, 0x1A7CED0BDFEC5ED7);
    LLStep(50, 0x1A7CED0BDFEC5ED7, 0xBFCCCDAD56A03D1);
    LLStep(51, 0xBFCCCDAD56A03D1, 0x1E82C82AFBE8B283);
    LLStep(52, 0x1E82C82AFBE8B283, 0x154CB25CC5970701);
    LLStep(53, 0x154CB25CC5970701, 0x3919885AB88F7B7);
    LLStep(54, 0x3919885AB88F7B7, 0x1D1EDB66BEA6E878);
    LLStep(55, 0x1D1EDB66BEA6E878, 0x135AC8EFE93551FC);
    LLStep(56, 0x135AC8EFE93551FC, 0xEFFBF0BDCC6771B);
    LLStep(57, 0xEFFBF0BDCC6771B, 0x80000000);
    LLStep(58, 0x80000000, 0x0);
  }

  lemma LLStart()
    ensures LL(0) == 4
  {
  }

  lemma {:induction false} LLTracksW(i: nat)
    ensures Cong(2 * W(Pow2(i)).x, LL(i), P)
  {
    hide W, Cong;
    if i == 0 {
      WStep(0);
      CongRefl(4, P);
    } else {
      LLTracksW(i - 1);
      var n, s := Pow2(i - 1), LL(i - 1);
      var x := W(n).x;
      WDouble(n);
      CongMul(2 * x, s, 2 * x, s, P);
      CongRefl(-2, P);
      CongAdd((2 * x) * (2 * x), s * s, -2, -2, P);
      ModIsCong(s * s - 2, P);
      assert 2 * W(2 * n).x == (2 * x) * (2 * x) + -2;
      CongSymmetric(LL(i), s * s - 2, P);
      CongTrans(2 * W(2 * n).x, s * s - 2, LL(i), P);
    }
  }

  // ---------- modulo a divisor of P ----------

  ghost predicate Divides(q: int, n: int) { exists k: int :: IsMultiple(n, k, q) }

  ghost predicate IsMultiple(n: int, k: int, q: int) { n == k * q }

  lemma DividesProduct(q: int, n: int, m: int)
    requires Divides(q, n)
    ensures Divides(q, m * n)
  {
    var k :| IsMultiple(n, k, q);
    assert m * n == (m * k) * q;
    assert IsMultiple(m * n, m * k, q);
  }

  lemma DividesCong(q: int, n: int, r: int)
    requires q > 0 && Divides(q, n)
    ensures Cong(n + r, r, q)
  {
    var k :| IsMultiple(n, k, q);
    CongBy(n + r, r, k, q);
  }

  /** Half way up, the power is -1. */
  lemma MinusOne(q: int)
    requires q > 0 && Divides(q, P)
    ensures W(Pow2(60)).Equiv(Surd(-1, 0), q)
  {
    hide W, Cong, LL, Pow2;
    var w := W(Pow2(59));
    LL59();
    LLTracksW(59);
    assert Divides(q, w.x) by {
      var k := CongQuotient(2 * w.x, 0, P);
      HalfOfMultiple(w.x, k);
      DividesProduct(q, P, w.x - k * ((P - 1) / 2));
    }
    assert Pow2(60) == 2 * Pow2(59) by { Pow2Step(59); }
    WDouble(Pow2(59));
    DividesProduct(q, w.x, 2 * w.x);
    DividesProduct(q, w.x, 2 * w.y);
    assert (2 * w.x) * w.x == 2 * (w.x * w.x) && (2 * w.y) * w.x == 2 * (w.x * w.y);
    DividesCong(q, 2 * (w.x * w.x), -1);
    DividesCong(q, 2 * (w.x * w.y), 0);
  }

  lemma HalfOfMultiple(x: int, k: int)
    requires 2 * x == k * P
    ensures x == (x - k * ((P - 1) / 2)) * P
  {
    var h := (P - 1) / 2;
    assert P == 2 * h + 1;
    assert (2 * x) * h == (k * P) * h == (k * h) * P;
    assert x * P == (2 * x) * h + x;
    assert (x - k * h) * P == x * P - (k * h) * P;
  }

  lemma TimesEquiv(a: Surd, a': Surd, b: Surd, b': Surd, q: int)
    requires q > 0 && a.Equiv(a', q) && b.Equiv(b', q)
    ensures a.Times(b).Equiv(a'.Times(b'), q)
  {
    hide Cong;
    CongRefl(3, q);
    CongMul(a.x, a'.x, b.x, b'.x, q);
    CongMul(a.y, a'.y, b.y, b'.y, q);
    CongMul(3, 3, a.y * b.y, a'.y * b'.y, q);
    CongMul(a.x, a'.x, b.y, b'.y, q);
    CongMul(a.y, a'.y, b.x, b'.x, q);
    CongAdd(a.x * b.x, a'.x * b'.x, 3 * (a.y * b.y), 3 * (a'.y * b'.y), q);
    CongAdd(a.x * b.y, a'.x * b'.y, a.y * b.x, a'.y * b'.x, q);
  }

  /** Multiples of an exponent whose power is a plain number u have power u^k. */
  lemma {:induction false} Repeat(d: nat, u: int, k: nat, q: int)
    requires q > 0 && W(d).Equiv(Surd(u, 0), q)
    ensures W(k * d).Equiv(Surd(Power(u, k), 0), q)
  {
    hide Cong, W;
    if k == 0 {
      WStep(0);
      CongRefl(1, q);
      CongRefl(0, q);
    } else {
      Repeat(d, u, k - 1, q);
      assert k * d == d + (k - 1) * d;
      WAdd(d, (k - 1) * d);
      TimesEquiv(W(d), Surd(u, 0), W((k - 1) * d), Surd(Power(u, k - 1), 0), q);
      var v := Power(u, k - 1);
      assert Surd(u, 0).Times(Surd(v, 0)) == Surd(u * v, 0);
    }
  }

  lemma {:induction false} Signs(k: nat)
    ensures Power(1, k) == 1
    ensures Power(-1, 2 * k + 1) == -1
  {
    if k == 0 {
    } else {
      Signs(k - 1);
      assert Power(-1, 2 * k + 1) == -1 * (-1 * Power(-1, 2 * (k - 1) + 1));
    }
  }

  lemma Doubled(a: int, b: int, h: int)
    requires b == 2 * h
    ensures a * b == 2 * (a * h)
  {
  }

  /** Every 0 < d < 2^(e+1) has a multiple by a power of two that is an odd multiple of 2^e. */
  lemma {:induction false} OddPart(d: nat, e: nat) returns (k: nat, o: nat)
    requires 0 < d < Pow2(e + 1)
    ensures Pow2(k) * d == (2 * o + 1) * Pow2(e)
    decreases e
  {
    hide Pow2;
    if d % 2 == 1 {
      k, o := e, d / 2;
      assert d == 2 * o + 1;
    } else {
      Pow2Step(e);
      assert e > 0 by { SmallPow2(); }
      Pow2Step(e - 1);
      k, o := OddPart(d / 2, e - 1);
      Doubled(Pow2(k), d, d / 2);
      Doubled(2 * o + 1, Pow2(e), Pow2(e - 1));
    }
  }

  /** No power before 2^61 returns to one. */
  lemma NeverOne(d: nat, q: int)
    requires 0 < d < Pow2(61) && q > 2 && Divides(q, P)
    ensures !W(d).Equiv(Surd(1, 0), q)
  {
    hide W, Cong, Pow2, Power;
    if W(d).Equiv(Surd(1, 0), q) {
      var k, o := OddPart(d, 60);
      Repeat(d, 1, Pow2(k), q);
      Signs(Pow2(k));
      MinusOne(q);
      Repeat(Pow2(60), -1, 2 * o + 1, q);
      Signs(o);
      OneIsNotMinusOne(W(Pow2(k) * d).x, q);
    }
  }

  lemma OneIsNotMinusOne(x: int, q: int)
    requires q > 2
    ensures !(Cong(x, 1, q) && Cong(x, -1, q))
  {
  }

  /** The powers below 2^61 are pairwise different modulo the divisor. */
  lemma PowersDiffer(i: nat, j: nat, q: int)
    requires i < j < Pow2(61) && q > 2 && Divides(q, P)
    ensures !W(i).Equiv(W(j), q)
  {
    hide W, Cong, Pow2;
    if W(i).Equiv(W(j), q) {
      var a, b := W(i), W(j - i);
      var conj := Surd(a.x, -a.y);
      WAdd(i, j - i);
      Norm(i);
      CongRefl(a.x, q);
      CongRefl(-a.y, q);
      TimesEquiv(conj, conj, W(i), W(j), q);
      assert conj.Times(a) == Surd(1, 0);
      Undo(a.x, a.y, b.x, b.y);
      assert conj.Times(a.Times(b)) == b;
      CongSymmetric(1, b.x, q);
      CongSymmetric(0, b.y, q);
      NeverOne(j - i, q);
    }
  }

  lemma Undo(x: int, y: int, u: int, v: int)
    requires x * x - 3 * (y * y) == 1
    ensures x * (x * u + 3 * (y * v)) + 3 * (-y * (x * v + y * u)) == u
    ensures x * (x * v + y * u) + -y * (x * u + 3 * (y * v)) == v
  {
    assert x * (x * u + 3 * (y * v)) + 3 * (-y * (x * v + y * u)) == (x * x - 3 * (y * y)) * u;
    assert x * (x * v + y * u) + -y * (x * u + 3 * (y * v)) == (x * x - 3 * (y * y)) * v;
  }

  // ---------- counting classes ----------

  /** The class of a power as one number below q*q. */
  function Class(n: nat, q: int): int
    requires q > 0
  {
    (W(n).x % q) * q + W(n).y % q
  }

  lemma ClassRange(n: nat, q: int)
    requires q > 2
    ensures 1 <= Class(n, q) <= q * q - 1
  {
    hide W, Cong;
    var w := W(n);
    DivMod(w.x, q);
    DivMod(w.y, q);
    MulMono(0, w.x % q, q);
    MulMono(w.x % q, q - 1, q);
    assert (q - 1) * q + (q - 1) == q * q - 1;
    if Class(n, q) == 0 {
      Norm(n);
      NotBothZero(w.x, w.y, w.x / q, w.y / q, q);
    }
  }

  lemma NotBothZero(x: int, y: int, a: int, b: int, q: int)
    requires q > 2 && x == a * q && y == b * q
    ensures x * x - 3 * (y * y) != 1
  {
    var k := x * a - 3 * (y * b);
    assert x * x - 3 * (y * y) == k * q;
    if k * q == 1 {
      if k >= 1 { MulMono(1, k, q); } else { MulMono(k, 0, q); }
    }
  }

  lemma SameClass(i: nat, j: nat, q: int)
    requires q > 0 && Class(i, q) == Class(j, q)
    ensures W(i).Equiv(W(j), q)
  {
    hide W;
    DivMod(W(i).y, q);
    DivMod(W(j).y, q);
    DivUnique(Class(i, q), q, W(i).x % q, W(i).y % q);
    DivUnique(Class(j, q), q, W(j).x % q, W(j).y % q);
  }

  lemma NoSmallDivisor(q: int)
    requires q > 2 && Divides(q, P)
    ensures q * q > P
  {
    hide W, Cong, Class, Pow2;
    var n := Pow2(61);
    var classes := seq(n, i requires 0 <= i => Class(i, q));
    forall i | 0 <= i < n
      ensures 1 <= classes[i] <= q * q - 1
    {
      ClassRange(i, q);
    }
    forall i, j | 0 <= i < j < n
      ensures classes[i] != classes[j]
    {
      if classes[i] == classes[j] {
        SameClass(i, j, q);
        PowersDiffer(i, j, q);
      }
    }
    Pigeonhole(classes, q * q - 1);
    Pow2Of61();
  }

  lemma Pow2Of61()
    ensures Pow2(61) == P + 1
  {
    SmallPow2();
    hide Pow2;
    Pow2Plus(4, 4);
    Pow2Plus(8, 8);
    Pow2Plus(16, 16);
    Pow2Plus(32, 16);
    Pow2Plus(48, 8);
    Pow2Plus(56, 4);
    Pow2Plus(60, 1);
  }

  lemma PIsPrime()
    ensures IsPrime(P)
  {
    forall d | 1 < d < P
      ensures P % d != 0
    {
      if P % d == 0 {
        var e := P / d;
        DivMod(P, d);
        NoFactors(e, d);
      }
    }
  }

  lemma NoFactors(e: int, d: int)
    requires 1 < d < P
    ensures e * d != P
  {
    if e * d == P {
      assert IsMultiple(P, e, d) && IsMultiple(P, d, e) by { assert d * e == e * d; }
      assert e > 1 by { if e <= 1 { MulMono(e, 1, d); } }
      assert d != 2 && e != 2;
      NoSmallDivisor(d);
      NoSmallDivisor(e);
      TwoLargeFactors(d, e);
    }
  }

  lemma TwoLargeFactors(d: int, e: int)
    requires d > 0 && e > 0 && e * d == P
    ensures !(d * d > P && e * e > P)
  {
  }
}
