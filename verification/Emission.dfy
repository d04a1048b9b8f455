/** crates/emission: the fixed-point issuance schedule and the exact split of each reward. */
module Emission {
  import opened Arithmetic
  import opened Bytes

  const SCALE: nat := 0x1_0000_0000

  /** `EmissionParams`: `new` asserts a positive half-life, and `emission_at` subtracts the tail. */
  datatype EmissionParams = EmissionParams(e0: u64, eTail: u64, halfLife: u64) {
    predicate Valid() { halfLife > 0 && e0 >= eTail }
  }

  /** Interpolation inside one half-life, `r` steps below `halvings`. */
  function Interpolated(halvings: nat, r: nat, halfLife: nat): int
    requires halfLife > 0
  {
    halvings - (halvings * r) / (2 * halfLife)
  }

  function DecayFactor(p: EmissionParams, height: nat): int
    requires p.Valid()
  {
    var q := height / p.halfLife;
    if q >= 64 then 0 else Interpolated(Shr(SCALE, q), height % p.halfLife, p.halfLife)
  }

  // ---------- quotients ----------

  lemma DivMono(a: int, b: int, d: int)
    requires d > 0 && a <= b
    ensures a / d <= b / d
  {
    DivMod(a, d);
    DivMod(b, d);
    if a / d > b / d {
      MulMono(b / d + 1, a / d, d);
    }
  }

  /** Doubling a dividend doubles the quotient, up to one. */
  lemma DivDouble(x: int, d: int)
    requires d > 0
    ensures 2 * (x / d) <= (2 * x) / d <= 2 * (x / d) + 1
  {
    var f, r := x / d, x % d;
    DivMod(x, d);
    assert 2 * x == (2 * f) * d + 2 * r;
    if 2 * r < d {
      DivUnique(2 * x, d, 2 * f, 2 * r);
    } else {
      assert 2 * x == (2 * f + 1) * d + (2 * r - d);
      DivUnique(2 * x, d, 2 * f + 1, 2 * r - d);
    }
  }

  lemma DropBounds(h: nat, r: nat, halfLife: nat)
    requires r < halfLife
    ensures 0 <= (h * r) / (2 * halfLife) <= h / 2
    ensures (h * r) / (2 * halfLife) <= (h * (r + 1)) / (2 * halfLife)
  {
    var d := 2 * halfLife;
    MulMono(0, r, h);
    MulMono(r, halfLife, h);
    DivMono(0, h * r, d);
    assert 0 / d == 0 by { DivUnique(0, d, 0, 0); }
    assert h * r <= h * halfLife;
    DivMono(h * r, h * halfLife, d);
    HalfOf(h, halfLife);
    assert h * r <= h * (r + 1);
    DivMono(h * r, h * (r + 1), d);
  }

  lemma HalfOf(h: nat, n: nat)
    requires n > 0
    ensures (h * n) / (2 * n) == h / 2
  {
    var f, r := h / 2, h % 2;
    assert h * n == (2 * f + r) * n == f * (2 * n) + r * n;
    assert 0 <= r * n < 2 * n;
    DivUnique(h * n, 2 * n, f, r * n);
  }

  // ---------- the decay law ----------

  lemma {:induction false} ScaleShifts(q: nat)
    ensures q <= 32 ==> Shr(SCALE, q) == Pow2(32 - q)
    ensures q > 32 ==> Shr(SCALE, q) == 0
  {
    if q == 0 {
      Pow2Of32();
    } else {
      ScaleShifts(q - 1);
    }
  }

  lemma Pow2Of32()
    ensures Pow2(32) == SCALE
  {
    SmallPow2();
    hide Pow2;
    Pow2Plus(4, 4);
    Pow2Plus(8, 8);
    Pow2Plus(16, 16);
  }

  /** A step of one checkpoint either moves inside the half-life or starts the next one. */
  lemma NextHeight(height: nat, halfLife: nat)
    requires halfLife > 0
    ensures var q, r := height / halfLife, height % halfLife;
            if r + 1 < halfLife then (height + 1) / halfLife == q && (height + 1) % halfLife == r + 1
            else r + 1 == halfLife && (height + 1) / halfLife == q + 1 && (height + 1) % halfLife == 0
  {
    var q, r := height / halfLife, height % halfLife;
    DivMod(height, halfLife);
    if r + 1 < halfLife {
      DivUnique(height + 1, halfLife, q, r + 1);
    } else {
      assert height + 1 == (q + 1) * halfLife + 0;
      DivUnique(height + 1, halfLife, q + 1, 0);
    }
  }

  lemma InterpolatedBounds(h: nat, r: nat, halfLife: nat)
    requires r < halfLife
    ensures 0 <= h / 2 <= Interpolated(h, r, halfLife) <= h
    ensures Interpolated(h, r + 1, halfLife) <= Interpolated(h, r, halfLife)
    ensures Interpolated(h, 0, halfLife) == h
  {
    DropBounds(h, r, halfLife);
    assert (h * 0) / (2 * halfLife) == 0 by { DivUnique(0, 2 * halfLife, 0, 0); }
  }

  lemma DecayStep(p: EmissionParams, height: nat)
    requires p.Valid()
    ensures 0 <= DecayFactor(p, height + 1) <= DecayFactor(p, height)
  {
    hide Interpolated, Shr;
    var l := p.halfLife;
    var q, r := height / l, height % l;
    DivMod(height, l);
    NextHeight(height, l);
    InterpolatedBounds(Shr(SCALE, q), r, l);
    ShrUnfolds(SCALE, q);
    if r + 1 < l {
      InterpolatedBounds(Shr(SCALE, q), r + 1, l);
    } else {
      InterpolatedBounds(Shr(SCALE, q + 1), 0, l);
    }
  }

  lemma {:induction false} DecayMonotone(p: EmissionParams, h: nat, h': nat)
    requires p.Valid() && h <= h'
    ensures DecayFactor(p, h') <= DecayFactor(p, h)
    decreases h'
  {
    hide DecayFactor;
    if h == h' {
    } else {
      DecayMonotone(p, h, h' - 1);
      DecayStep(p, h' - 1);
    }
  }

  lemma DecayEnds(p: EmissionParams, height: nat)
    requires p.Valid()
    ensures DecayFactor(p, 0) == SCALE
    ensures height >= 33 * p.halfLife ==> DecayFactor(p, height) == 0
  {
    hide Shr;
    var l: int := p.halfLife;
    DivUnique(0, l, 0, 0);
    InterpolatedBounds(SCALE, 0, l);
    ShrUnfolds(SCALE, 0);
    if height >= 33 * l {
      var q := height / l;
      DivMod(height, l);
      assert q >= 33 by { if q <= 32 { MulMono(q, 32, l); } }
      ScaleShifts(q);
      assert Interpolated(0, height % l, l) == 0 by { DivUnique(0, 2 * l, 0, 0); }
    }
  }

  /** One half-life later the factor is exactly half, rounded up. */
  lemma HalvingLaw(p: EmissionParams, height: nat)
    requires p.Valid() && height < 32 * p.halfLife
    ensures DecayFactor(p, height + p.halfLife) == (DecayFactor(p, height) + 1) / 2
  {
    hide Shr, Pow2;
    var l := p.halfLife;
    var q, r := height / l, height % l;
    DivMod(height, l);
    assert q < 32 by { if q >= 32 { MulMono(32, q, l); } }
    assert height + l == (q + 1) * l + r;
    DivUnique(height + l, l, q + 1, r);
    ScaleShifts(q);
    ShrUnfolds(SCALE, q);
    assert Pow2(32 - q) == 2 * Pow2(31 - q) by { Pow2Step(31 - q); }
    HalveInterpolated(Pow2(31 - q), r, l);
  }

  lemma HalveInterpolated(g: nat, r: nat, halfLife: nat)
    requires halfLife > 0
    ensures Interpolated(g, r, halfLife) == (Interpolated(2 * g, r, halfLife) + 1) / 2
  {
    DivDouble(g * r, 2 * halfLife);
    assert (2 * g) * r == 2 * (g * r);
  }

  /** The value inside a half-life: r steps past q halvings the factor has dropped from H = 2^(32-q) by the
      whole units of H * r / (2 * halfLife), a straight line to H / 2. */
  lemma DecayExactly(p: EmissionParams, q: nat, r: nat)
    requires p.Valid() && q <= 32 && r < p.halfLife
    ensures var H, D := Pow2(32 - q), DecayFactor(p, q * p.halfLife + r);
            2 * p.halfLife * (H - D) <= H * r < 2 * p.halfLife * (H - D + 1)
  {
    hide Shr, Pow2;
    var l: int := p.halfLife;
    DivUnique(q * l + r, l, q, r);
    ScaleShifts(q);
    FloorBounds(Pow2(32 - q) * r, 2 * l);
  }

  lemma FloorBounds(n: int, d: int)
    requires d > 0
    ensures d * (n / d) <= n < d * (n / d + 1)
  {
    DivMod(n, d);
  }

  // ---------- the emission schedule ----------

  lemma EmissionStepMonotone(p: EmissionParams, d: int, d': int)
    requires p.Valid() && 0 <= d' <= d
    ensures 0 <= ((p.e0 - p.eTail) * d') / SCALE <= ((p.e0 - p.eTail) * d) / SCALE
  {
    var span := p.e0 - p.eTail;
    MulMono(0, d', span);
    MulMono(d', d, span);
    assert span * d' <= span * d;
    DivMono(0, span * d', SCALE);
    DivMono(span * d', span * d, SCALE);
  }

  lemma EmissionInRange(p: EmissionParams, height: nat)
    requires p.Valid()
    ensures 0 <= ((p.e0 - p.eTail) * DecayFactor(p, height)) / SCALE <= p.e0 - p.eTail
  {
    hide DecayFactor;
    DecayMonotone(p, 0, height);
    DecayStep(p, height);
    DecayEnds(p, 0);
    EmissionStepMonotone(p, SCALE, DecayFactor(p, height));
    DivUnique((p.e0 - p.eTail) * SCALE, SCALE, p.e0 - p.eTail, 0);
  }

  function EmissionAt(p: EmissionParams, height: nat): (e: u64)
    requires p.Valid()
    ensures p.eTail <= e <= p.e0
  {
    EmissionInRange(p, height);
    p.eTail + ((p.e0 - p.eTail) * DecayFactor(p, height)) / SCALE
  }

  /** The emission is the tail plus the whole units of the span scaled by the decay factor. */
  lemma EmissionExactly(p: EmissionParams, height: nat)
    requires p.Valid()
    ensures var e, D := EmissionAt(p, height), DecayFactor(p, height);
            0x1_0000_0000 * (e - p.eTail) <= (p.e0 - p.eTail) * D < 0x1_0000_0000 * (e - p.eTail + 1)
  {
    hide DecayFactor;
    FloorBounds((p.e0 - p.eTail) * DecayFactor(p, height), SCALE);
  }

  /** The whole schedule: never increasing, from `e0` down to the tail, which is reached for good
      after 33 half-lives. */
  lemma EmissionSchedule(p: EmissionParams, h: nat, h': nat)
    requires p.Valid() && h <= h'
    ensures p.eTail <= EmissionAt(p, h') <= EmissionAt(p, h) <= p.e0
    ensures EmissionAt(p, 0) == p.e0
    ensures h >= 33 * p.halfLife ==> EmissionAt(p, h) == p.eTail
  {
    hide DecayFactor;
    DecayMonotone(p, h, h');
    DecayStep(p, h');
    DecayEnds(p, h);
    EmissionStepMonotone(p, DecayFactor(p, h), DecayFactor(p, h'));
    assert ((p.e0 - p.eTail) * SCALE) / SCALE == p.e0 - p.eTail by {
      DivUnique((p.e0 - p.eTail) * SCALE, SCALE, p.e0 - p.eTail, 0);
    }
    assert (p.e0 - p.eTail) * 0 / SCALE == 0;
  }

  // ---------- proportional distribution ----------

  datatype RewardShare = RewardShare(validatorIndex: nat, amount: u64)

  function Sum(s: seq<int>): int {
    if s == [] then 0 else Sum(s[..|s| - 1]) + s[|s| - 1]
  }

  function Floors(total: int, weights: seq<int>, weightSum: int): (s: seq<int>)
    requires weightSum > 0
    ensures |s| == |weights| && forall i :: 0 <= i < |s| ==> s[i] == (total * weights[i]) / weightSum
  {
    seq(|weights|, i requires 0 <= i < |weights| => (total * weights[i]) / weightSum)
  }

  /** The floors fall short of the total by less than one unit per validator. */
  lemma {:induction false} FloorsBound(total: nat, weights: seq<int>, weightSum: int)
    requires weightSum > 0
    ensures var f := Sum(Floors(total, weights, weightSum)) * weightSum;
            total * Sum(weights) - |weights| * (weightSum - 1) <= f <= total * Sum(weights)
  {
    var fs := Floors(total, weights, weightSum);
    if weights == [] {
    } else {
      var n := |weights| - 1;
      FloorsBound(total, weights[..n], weightSum);
      assert fs[..n] == Floors(total, weights[..n], weightSum);
      DivMod(total * weights[n], weightSum);
      DistributeStep(total, Sum(weights[..n]), weights[n], Sum(fs[..n]), fs[n], n, weightSum);
    }
  }

  lemma DistributeStep(t: int, s: int, w: int, f: int, g: int, n: int, d: int)
    requires t * s - n * (d - 1) <= f * d <= t * s
    requires t * w - (d - 1) <= g * d <= t * w
    ensures t * (s + w) - (n + 1) * (d - 1) <= (f + g) * d <= t * (s + w)
  {
  }

  lemma BetweenMultiples(t: int, n: int, f: int, d: int)
    requires d > 0 && n > 0 && t * d - n * (d - 1) <= f * d <= t * d
    ensures 0 <= t - f < n
  {
  }

  lemma RemainderSmall(total: nat, weights: seq<int>)
    requires weights != [] && Sum(weights) > 0
    ensures 0 <= total - Sum(Floors(total, weights, Sum(weights))) < |weights|
  {
    FloorsBound(total, weights, Sum(weights));
    BetweenMultiples(total, |weights|, Sum(Floors(total, weights, Sum(weights))), Sum(weights));
  }

  /** Floors of the exact proportions, plus one unit for the first `remainder` validators. */
  function Portions(total: int, weights: seq<int>): (s: seq<int>)
    requires Sum(weights) > 0
    ensures |s| == |weights|
  {
    var floors := Floors(total, weights, Sum(weights));
    seq(|weights|, i requires 0 <= i < |weights| => floors[i] + (if i < total - Sum(floors) then 1 else 0))
  }

  /** The first r entries raised by one. */
  lemma {:induction false} SumRaised(a: seq<int>, b: seq<int>, r: int)
    requires |a| == |b| && 0 <= r <= |a|
    requires forall i :: 0 <= i < |a| ==> b[i] == a[i] + (if i < r then 1 else 0)
    ensures Sum(b) == Sum(a) + r
  {
    if a == [] {
    } else {
      var n := |a| - 1;
      SumRaised(a[..n], b[..n], if r > n then n else r);
    }
  }

  /** The portions add up to the total exactly. */
  lemma PortionsSum(total: nat, weights: seq<int>)
    requires weights != [] && Sum(weights) > 0
    ensures Sum(Portions(total, weights)) == total
  {
    RemainderSmall(total, weights);
    var floors := Floors(total, weights, Sum(weights));
    SumRaised(floors, Portions(total, weights), total - Sum(floors));
  }

  ghost predicate NonNegative(s: seq<int>) { forall i :: 0 <= i < |s| ==> s[i] >= 0 }

  lemma {:induction false} SumBounds(s: seq<int>, i: nat)
    requires NonNegative(s)
    ensures Sum(s) >= 0 && (i < |s| ==> s[i] <= Sum(s))
  {
    if s == [] {
    } else {
      SumBounds(s[..|s| - 1], i);
    }
  }

  lemma PortionFits(total: nat, weights: seq<int>, i: nat)
    requires NonNegative(weights) && Sum(weights) > 0 && i < |weights|
    ensures 0 <= Portions(total, weights)[i] <= total
  {
    hide Sum;
    var p := Portions(total, weights);
    forall j | 0 <= j < |p|
      ensures p[j] >= 0
    {
      MulMono(0, weights[j], total);
      DivMono(0, total * weights[j], Sum(weights));
      DivUnique(0, Sum(weights), 0, 0);
    }
    PortionsSum(total, weights);
    SumBounds(p, i);
  }

  function Shares(total: u64, weights: seq<u64>): (shares: seq<RewardShare>)
    ensures |shares| == if Sum(weights) <= 0 then 0 else |weights|
    ensures forall i :: 0 <= i < |shares| ==> shares[i].validatorIndex == i
  {
    if Sum(weights) <= 0 then []
    else seq(|weights|, i requires 0 <= i < |weights| =>
           PortionFits(total, weights, i);
           RewardShare(i, Portions(total, weights)[i]))
  }

  function Amounts(shares: seq<RewardShare>): (s: seq<int>)
    ensures |s| == |shares| && forall i :: 0 <= i < |s| ==> s[i] == shares[i].amount
  {
    seq(|shares|, i requires 0 <= i < |shares| => shares[i].amount)
  }

  /** Every share is the floor of its exact proportion or one more, lower indices first, and a positive
      weight sum hands out exactly the total; a zero weight sum hands out nothing. */
  lemma SharesExact(total: u64, weights: seq<u64>)
    ensures var shares := Shares(total, weights);
            && (Sum(weights) > 0 ==> Sum(Amounts(shares)) == total)
            && (Sum(weights) <= 0 ==> Sum(Amounts(shares)) == 0)
            && (forall i :: 0 <= i < |shares| ==>
                  0 <= shares[i].amount - (total * weights[i]) / Sum(weights) <= 1)
            && (forall i, j :: 0 <= i < j < |shares| ==>
                  shares[i].amount - (total * weights[i]) / Sum(weights)
                  >= shares[j].amount - (total * weights[j]) / Sum(weights))
  {
    var shares := Shares(total, weights);
    if Sum(weights) > 0 {
      PortionsSum(total, weights);
      assert Amounts(shares) == Portions(total, weights);
      assert forall i :: 0 <= i < |shares| ==>
          shares[i].amount - (total * weights[i]) / Sum(weights)
          == if i < total - Sum(Floors(total, weights, Sum(weights))) then 1 else 0;
    }
  }

  /** First loop of `distribute`. */
  method FloorShares(total: u64, weights: seq<u64>, weightSum: int) returns (amounts: seq<int>, distributed: int)
    requires weightSum > 0
    ensures amounts == Floors(total, weights, weightSum) && distributed == Sum(amounts)
  {
    ghost var floors := Floors(total, weights, weightSum);
    amounts, distributed := [], 0;
    for i := 0 to |weights|
      invariant amounts == floors[..i] && distributed == Sum(floors[..i])
    {
      var amount := (total * weights[i]) / weightSum;
      assert floors[..i + 1][..i] == floors[..i];
      distributed := distributed + amount;
      amounts := amounts + [amount];
    }
    assert floors[..|floors|] == floors;
  }

  /** Second loop of `distribute`: one unit each for the first `rest` entries; the index never wraps. */
  method HandOut(floors: seq<int>, rest: int) returns (amounts: seq<int>)
    requires 0 <= rest < |floors|
    ensures |amounts| == |floors|
    ensures forall j :: 0 <= j < |amounts| ==> amounts[j] == floors[j] + (if j < rest then 1 else 0)
  {
    amounts := floors;
    var remainder, i := rest, 0;
    while remainder > 0
      invariant 0 <= remainder && remainder + i == rest && 0 <= i < |amounts| == |floors|
      invariant forall j :: 0 <= j < |amounts| ==> amounts[j] == floors[j] + (if j < i then 1 else 0)
      decreases remainder
    {
      amounts := amounts[i := amounts[i] + 1];
      remainder := remainder - 1;
      DivUnique(i + 1, |amounts|, 0, i + 1);
      i := (i + 1) % |amounts|;
    }
  }

  method TotalWeight(weights: seq<u64>) returns (sum: int)
    ensures sum == Sum(weights) && sum >= 0
    ensures weights == [] ==> sum == 0
  {
    sum := 0;
    for i := 0 to |weights|
      invariant sum == Sum(weights[..i]) && sum >= 0
    {
      assert weights[..i + 1][..i] == weights[..i];
      sum := sum + weights[i];
    }
    assert weights[..|weights|] == weights;
  }

  /** `distribute`: floors first, then the remainder one unit at a time; the index never wraps. */
  method Distribute(total: u64, weights: seq<u64>) returns (shares: seq<RewardShare>)
    ensures shares == Shares(total, weights)
  {
    hide Sum;
    var weightSum := TotalWeight(weights);
    if weightSum == 0 || weights == [] {
      return [];
    }
    var amounts, distributed := FloorShares(total, weights, weightSum);
    RemainderSmall(total, weights);
    amounts := HandOut(amounts, total - distributed);
    assert amounts == Portions(total, weights);
    shares := [];
    for k := 0 to |amounts|
      invariant shares == Shares(total, weights)[..k]
    {
      PortionFits(total, weights, k);
      shares := shares + [RewardShare(k, amounts[k])];
    }
  }
}
