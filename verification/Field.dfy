/** crates/antispam-quota, module `field`: arithmetic in GF(2^61 - 1). */
module Field {
  import opened Arithmetic
  import opened Bytes
  import opened Modular
  import opened Fermat
  import opened Mersenne

  const TWO128: nat := 0x1_0000_0000_0000_0000_0000_0000_0000_0000

  type Residue = n: int | 0 <= n < 0x1FFF_FFFF_FFFF_FFFF

  function Reduce(x: nat): Residue { x % P }

  function Add(a: u64, b: u64): Residue { (a + b) % P }

  /** The 128-bit subtraction `a + P - b` wraps around below zero. */
  function Sub(a: u64, b: u64): Residue {
    var raw := a + P - b;
    (if raw >= 0 then raw else raw + TWO128) % P
  }

  function Mul(a: u64, b: u64): Residue { Reduce(a * b) }

  /** `Sub` is subtraction in the field exactly when `b <= a + P`; reduced operands always qualify. */
  lemma SubExact(a: u64, b: u64)
    ensures Cong(Sub(a, b), a - b, P) <==> b <= a + P
  {
  }

  /** A wire share above its range makes the subtraction wrong. */
  lemma SubWrongOutOfRange()
    ensures !Cong(Sub(0, P + 1), 0 - (P + 1), P)
  {
  }

  // ---------- square and multiply ----------

  lemma ReducedPower(x: int, e: nat)
    ensures Cong(Power(x % P, e), Power(x, e), P)
  {
    ModIsCong(x, P);
    PowerCong(x % P, x, e, P);
  }

  lemma HalvedPower(base: nat, h: nat)
    ensures Cong(Power((base * base) % P, h), Power(base, 2 * h), P)
  {
    hide Cong, Power;
    ReducedPower(base * base, h);
    PowerSquare(base, h);
  }

  /** A round of the loop on an even exponent keeps acc * base^exp modulo P. */
  lemma EvenStep(acc: nat, base: nat, h: nat)
    ensures Cong(acc * Power((base * base) % P, h), acc * Power(base, 2 * h), P)
  {
    hide Cong, Power;
    HalvedPower(base, h);
    CongRefl(acc, P);
    CongMul(acc, acc, Power((base * base) % P, h), Power(base, 2 * h), P);
  }

  /** So does one on an odd exponent. */
  lemma OddStep(acc: nat, base: nat, h: nat)
    ensures Cong((acc * base) % P * Power((base * base) % P, h), acc * Power(base, 2 * h + 1), P)
  {
    hide Cong, Power;
    HalvedPower(base, h);
    ModIsCong(acc * base, P);
    var w := Power(base, 2 * h);
    CongMul((acc * base) % P, acc * base, Power((base * base) % P, h), w, P);
    PowerUnfolds(base, 2 * h + 1);
    MulAssoc(acc, base, w);
  }

  lemma PowerUnfolds(b: int, e: nat)
    requires e > 0
    ensures Power(b, e) == b * Power(b, e - 1)
  {
  }

  method Pow(base: u64, exp: u64) returns (acc: Residue)
    ensures acc == Power(base, exp) % P
  {
    hide Power, Cong;
    acc := 1;
    var b: Residue := base % P;
    var e: nat := exp;
    ReducedPower(base, exp);
    assert 1 * Power(b, e) == Power(b, e);
    while e > 0
      invariant Cong(acc * Power(b, e), Power(base, exp), P)
    {
      ghost var before := acc * Power(b, e);
      if e % 2 == 1 {
        OddStep(acc, b, e / 2);
        acc := Mul(acc, b);
      } else {
        EvenStep(acc, b, e / 2);
      }
      b := Mul(b, b);
      e := e / 2;
      CongTrans(acc * Power(b, e), before, Power(base, exp), P);
    }
    assert acc * Power(b, 0) == acc by { PowerZero(b); }
    SmallMod(acc, Power(base, exp));
  }

  lemma PowerZero(b: int)
    ensures Power(b, 0) == 1
  {
  }

  lemma SmallMod(a: int, b: int)
    requires 0 <= a < P && Cong(a, b, P)
    ensures a == b % P
  {
  }

  function InvSpec(a: u64): Residue { Power(a, P - 2) % P }

  method Inv(a: u64) returns (r: Residue)
    ensures r == InvSpec(a)
  {
    r := Pow(a, P - 2);
  }

  /** The Fermat inverse inverts every nonzero residue class. */
  lemma InvIsInverse(a: u64)
    requires a % P != 0
    ensures Mul(a, InvSpec(a)) == 1
  {
    hide Power, Cong;
    PIsPrime();
    FermatLittle(a, P);
    assert Power(a, P - 1) == a * Power(a, P - 2) by { PowerUnfolds(a, P - 1); }
    ModIsCong(Power(a, P - 2), P);
    CongRefl(a, P);
    CongMul(a, a, InvSpec(a), Power(a, P - 2), P);
    CongTrans(a * InvSpec(a), Power(a, P - 1), 1, P);
    CongSymmetric(a * InvSpec(a), 1, P);
    SmallMod(1, a * InvSpec(a));
  }

  // ---------- the line through two shares ----------

  /** `admit`'s interpolation of the constant term from two shares. */
  function Interpolate(x0: u64, y0: u64, x1: u64, y1: u64): Residue {
    var a1 := Mul(Sub(y1, y0), InvSpec(Sub(x1, x0)));
    Sub(y0, Mul(a1, x0))
  }

  lemma SubIsCong(a: Residue, b: Residue)
    ensures Cong(Sub(a, b), a - b, P)
  {
  }

  lemma MulIsCong(a: u64, b: u64)
    ensures Cong(Mul(a, b), a * b, P)
  {
  }

  function Share(secret: Residue, slope: Residue, x: Residue): Residue { Add(secret, Mul(slope, x)) }

  lemma ShareIsCong(secret: Residue, slope: Residue, x: Residue)
    ensures Cong(Share(secret, slope, x), secret + slope * x, P)
  {
    hide Cong;
    MulIsCong(slope, x);
    CongRefl(secret, P);
    CongAdd(secret, secret, Mul(slope, x), slope * x, P);
    ModIsCong(secret + Mul(slope, x), P);
    CongTrans(Share(secret, slope, x), secret + Mul(slope, x), secret + slope * x, P);
  }

  lemma NonzeroDifference(x0: Residue, x1: Residue)
    requires x0 != x1
    ensures Sub(x1, x0) % P != 0
  {
  }

  /** How far a wrapped subtraction is off: 2^128 is 64 modulo P. */
  function Slip(a: u64, b: u64): int { if b <= a + P then 0 else 64 }

  lemma SubSlips(a: u64, b: u64)
    ensures Cong(Sub(a, b), a - b + Slip(a, b), P)
  {
    var k := (TWO128 - 64) / P;
    assert TWO128 == 64 + k * P;
    var raw := a + P - b;
    if raw >= 0 {
      CongBy(raw, a - b, 1, P);
      ModIsCong(raw, P);
    } else {
      CongBy(raw + TWO128, a - b + 64, k + 1, P);
      ModIsCong(raw + TWO128, P);
    }
  }

  /** (x, y) lies on the line through the secret, whether or not y is reduced. */
  ghost predicate OnLine(s: Residue, a: Residue, x: Residue, y: u64) { Cong(y, s + a * x, P) }

  /** The interpolated slope is the slope of the line, off by the slip of the subtraction over dx. */
  lemma SlopeSlips(s: Residue, a: Residue, x0: Residue, y0: u64, x1: Residue, y1: u64)
    requires x0 != x1 && OnLine(s, a, x0, y0) && OnLine(s, a, x1, y1)
    ensures var inv := InvSpec(Sub(x1, x0));
            Cong(Mul(Sub(y1, y0), inv), a + Slip(y1, y0) * inv, P)
  {
    hide Cong, Sub, Mul, InvSpec, Slip;
    var dx: int, dy: int, e := Sub(x1, x0), Sub(y1, y0), Slip(y1, y0);
    var inv: int := InvSpec(dx);
    RiseIsCong(s, a, x0, y0, x1, y1);
    InvertRise(a, dx, inv, e, x0, x1);
    CongRefl(inv, P);
    CongMul(dy, a * dx + e, inv, inv, P);
    CongTrans(dy * inv, (a * dx + e) * inv, a + e * inv, P);
    MulIsCong(dy, inv);
    CongTrans(Mul(dy, inv), dy * inv, a + e * inv, P);
  }

  lemma RiseIsCong(s: Residue, a: Residue, x0: Residue, y0: u64, x1: Residue, y1: u64)
    requires OnLine(s, a, x0, y0) && OnLine(s, a, x1, y1)
    ensures Cong(Sub(y1, y0), a * Sub(x1, x0) + Slip(y1, y0), P)
  {
    hide Cong, Sub, Slip;
    var dx: int, e := Sub(x1, x0), Slip(y1, y0);
    SubSlips(y1, y0);
    CongSub(y1, s + a * x1, y0, s + a * x0, P);
    LineRise(s, a, x0, x1);
    SubIsCong(x1, x0);
    CongRefl(a, P);
    CongMul(a, a, dx, x1 - x0, P);
    CongSymmetric(a * dx, a * (x1 - x0), P);
    CongTrans(y1 - y0, a * (x1 - x0), a * dx, P);
    CongRefl(e, P);
    CongAdd(y1 - y0, a * dx, e, e, P);
    CongTrans(Sub(y1, y0), y1 - y0 + e, a * dx + e, P);
  }

  lemma LineRise(s: int, a: int, x0: int, x1: int)
    ensures (s + a * x1) - (s + a * x0) == a * (x1 - x0)
  {
  }

  lemma InvertRise(a: Residue, dx: int, inv: int, e: int, x0: Residue, x1: Residue)
    requires x0 != x1 && dx == Sub(x1, x0) && inv == InvSpec(dx)
    ensures Cong((a * dx + e) * inv, a + e * inv, P)
  {
    hide Cong, Sub, Mul, InvSpec;
    RunInverse(x0, x1);
    CongRefl(a, P);
    CongMul(a, a, dx * inv, 1, P);
    CongRefl(e * inv, P);
    CongAdd(a * (dx * inv), a * 1, e * inv, e * inv, P);
    RiseTimes(a, dx, e, inv);
  }

  lemma RiseTimes(a: int, dx: int, e: int, inv: int)
    ensures (a * dx + e) * inv == a * (dx * inv) + e * inv
  {
  }

  lemma RunInverse(x0: Residue, x1: Residue)
    requires x0 != x1
    ensures Cong(Sub(x1, x0) * InvSpec(Sub(x1, x0)), 1, P)
  {
    hide Cong, Sub, Mul, InvSpec;
    var dx := Sub(x1, x0);
    NonzeroDifference(x0, x1);
    InvIsInverse(dx);
    MulIsCong(dx, InvSpec(dx));
    CongSymmetric(1, dx * InvSpec(dx), P);
  }

  /** Two shares at different points give back the slope of their line. */
  lemma SlopeRecovered(s: Residue, a: Residue, x0: Residue, x1: Residue)
    requires x0 != x1
    ensures Mul(Sub(Share(s, a, x1), Share(s, a, x0)), InvSpec(Sub(x1, x0))) == a
  {
    hide Cong, Share, Sub, Mul, InvSpec;
    var y0: u64, y1: u64 := Share(s, a, x0), Share(s, a, x1);
    ShareIsCong(s, a, x0);
    ShareIsCong(s, a, x1);
    SlopeSlips(s, a, x0, y0, x1, y1);
    SmallCong(Mul(Sub(y1, y0), InvSpec(Sub(x1, x0))), a, P);
  }

  /** What `admit` recovers is the secret less the slip carried down the slope to x = 0. */
  lemma InterpolateSlips(s: Residue, a: Residue, x0: Residue, y0: u64, x1: Residue, y1: u64)
    requires x0 != x1 && OnLine(s, a, x0, y0) && OnLine(s, a, x1, y1)
    ensures Cong(Interpolate(x0, y0, x1, y1), s - (Slip(y1, y0) * InvSpec(Sub(x1, x0))) * x0, P)
  {
    hide Cong, Sub, Mul, InvSpec, Slip;
    var a1: int := Mul(Sub(y1, y0), InvSpec(Sub(x1, x0)));
    var off := Slip(y1, y0) * InvSpec(Sub(x1, x0));
    SlopeSlips(s, a, x0, y0, x1, y1);
    CongRefl(x0, P);
    CongMul(a1, a + off, x0, x0, P);
    MulIsCong(a1, x0);
    CongTrans(Mul(a1, x0), a1 * x0, (a + off) * x0, P);
    SubReduced(y0, Mul(a1, x0));
    CongSub(y0, s + a * x0, Mul(a1, x0), (a + off) * x0, P);
    AtZero(s, a, off, x0);
    CongTrans(Interpolate(x0, y0, x1, y1), y0 - Mul(a1, x0), s - off * x0, P);
  }

  lemma AtZero(s: int, a: int, off: int, x0: int)
    ensures (s + a * x0) - (a + off) * x0 == s - off * x0
  {
  }

  lemma SubReduced(a: u64, b: Residue)
    ensures Cong(Sub(a, b), a - b, P)
  {
    SubExact(a, b);
  }

  /** Shares taken from the wire need not be reduced: the secret comes out exactly when the subtraction of
      the y values does not wrap, or the first share sits at x = 0 anyway. */
  lemma InterpolateExactly(s: Residue, a: Residue, x0: Residue, y0: u64, x1: Residue, y1: u64)
    requires x0 != x1 && OnLine(s, a, x0, y0) && OnLine(s, a, x1, y1)
    ensures Interpolate(x0, y0, x1, y1) == s <==> y0 <= y1 + P || x0 == 0
  {
    hide Cong, Sub, Mul, InvSpec, OnLine;
    var inv: int := InvSpec(Sub(x1, x0));
    InterpolateSlips(s, a, x0, y0, x1, y1);
    if y0 <= y1 + P || x0 == 0 {
      SmallCong(Interpolate(x0, y0, x1, y1), s, P);
    } else if Interpolate(x0, y0, x1, y1) == s {
      RunInverse(x0, x1);
      NoSlip(s, inv, Sub(x1, x0), x0);
    }
  }

  /** A slip of 64 over a nonzero run changes the value at zero unless x0 is zero. */
  lemma NoSlip(s: int, inv: Residue, dx: int, x0: Residue)
    requires Cong(dx * inv, 1, P) && Cong(s, s - (64 * inv) * x0, P)
    ensures x0 == 0
  {
    PIsPrime();
    if x0 != 0 {
      assert inv != 0;
      NonzeroTimes(64, inv, P);
      NonzeroTimes(64 * inv, x0, P);
      hide Cong;
      CongRefl(s, P);
      CongSub(s, s, s, s - (64 * inv) * x0, P);
      assert s - (s - (64 * inv) * x0) == (64 * inv) * x0 && s - s == 0;
      ZeroClass((64 * inv) * x0);
    }
  }

  lemma ZeroClass(n: int)
    requires Cong(0, n, P)
    ensures n % P == 0
  {
  }

  /** Two shares at different points recover the constant term of the line. */
  lemma SecretRecovered(s: Residue, a: Residue, x0: Residue, x1: Residue)
    requires x0 != x1
    ensures Interpolate(x0, Share(s, a, x0), x1, Share(s, a, x1)) == s
  {
    hide Cong, Share, Interpolate;
    ShareIsCong(s, a, x0);
    ShareIsCong(s, a, x1);
    InterpolateExactly(s, a, x0, Share(s, a, x0), x1, Share(s, a, x1));
  }
}
