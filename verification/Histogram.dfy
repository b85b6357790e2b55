/** The Q30 delay histogram with a forget factor (neteq/src/histogram.rs), in exact integer arithmetic. */
module Histograms {
  import opened Numbers
  import opened Options

  // Fixed point: 1.0 is 32768 in Q15 and 0x4000_0000 in Q30.
  const I32_MAX: int := 2147483647

  /** Largest bucket count for which the correction is proved to absorb every truncation error. */
  const MAX_BUCKETS: int := 33554432

  /** Rust's f64::round: nearest integer, halves away from zero. */
  function Round(x: real): int {
    if x >= 0.0 then (x + 0.5).Floor else -((-x + 0.5).Floor)
  }

  /** The nearest integer, halves away from zero. */
  lemma RoundIsNearest(x: real)
    ensures x >= 0.0 ==> Round(x) as real - 0.5 <= x < Round(x) as real + 0.5
    ensures x <= 0.0 ==> Round(x) as real - 0.5 < x <= Round(x) as real + 0.5
  {
  }

  // ===== buckets ====================================================================

  function Total(b: seq<int>): int {
    if b == [] then 0 else b[0] + Total(b[1..])
  }

  ghost predicate NonNegative(b: seq<int>) {
    forall i :: 0 <= i < |b| ==> 0 <= b[i]
  }

  /** Every bucket multiplied by the forget factor, truncated. */
  ghost function Scaled(b: seq<int>, f: int): seq<int> {
    seq(|b|, i requires 0 <= i < |b| => b[i] * f / 32768)
  }

  /** Adds up to a sixteenth of each bucket, from the front, until `rest` is used up. */
  ghost function Corrected(b: seq<int>, rest: int): (r: seq<int>)
    ensures |r| == |b|
  {
    if b == [] then []
    else
      var c := Min(rest, b[0] / 16);
      [b[0] + c] + Corrected(b[1..], rest - c)
  }

  /** The new sample's weight added to its bucket. */
  ghost function WithSample(s: seq<int>, f: int, value: nat): (r: seq<int>)
    requires value < |s|
    ensures |r| == |s|
  {
    s[value := s[value] + (32768 - f) * 32768]
  }

  ghost function Weighted(b: seq<int>, f: int, value: nat): (r: seq<int>)
    requires value < |b|
    ensures |r| == |b|
  {
    WithSample(Scaled(b, f), f, value)
  }

  ghost function Repaired(w: seq<int>): (r: seq<int>)
    ensures |r| == |w|
  {
    Corrected(w, 0x4000_0000 - Total(w))
  }

  /** One observation: forget, add the new sample, put the truncation error back. */
  ghost function Added(b: seq<int>, f: int, value: nat): (r: seq<int>)
    requires value < |b|
    ensures |r| == |b|
  {
    Repaired(Weighted(b, f, value))
  }

  ghost function Sixteenths(b: seq<int>): int {
    if b == [] then 0 else b[0] / 16 + Sixteenths(b[1..])
  }

  lemma {:induction false} TotalUpdate(b: seq<int>, i: nat, x: int)
    requires i < |b|
    ensures Total(b[i := x]) == Total(b) - b[i] + x
  {
    if i == 0 {
      assert b[i := x][1..] == b[1..];
    } else {
      TotalUpdate(b[1..], i - 1, x);
      assert b[i := x][1..] == b[1..][i - 1 := x];
    }
  }

  lemma {:induction false} TotalBound(b: seq<int>, i: nat)
    requires NonNegative(b)
    ensures 0 <= Total(b)
    ensures i < |b| ==> b[i] <= Total(b)
  {
    if b == [] {
    } else {
      TotalBound(b[1..], if i > 0 then i - 1 else 0);
    }
  }

  lemma ScaleOne(x: int, f: int)
    requires 0 <= x && 0 <= f
    ensures 0 <= x * f / 32768
    ensures f * x - 32767 <= 32768 * (x * f / 32768) <= f * x
  {
    assert 0 <= x * f;
  }

  lemma {:induction false} TotalScaled(b: seq<int>, f: int)
    requires NonNegative(b) && 0 <= f
    ensures NonNegative(Scaled(b, f))
    ensures f * Total(b) - 32767 * |b| <= 32768 * Total(Scaled(b, f)) <= f * Total(b)
  {
    if b == [] {
    } else {
      TotalScaled(b[1..], f);
      assert Scaled(b, f)[1..] == Scaled(b[1..], f);
      assert f * Total(b) == f * b[0] + f * Total(b[1..]);
      ScaleOne(b[0], f);
      assert forall i :: 0 <= i < |b[1..]| ==> Scaled(b, f)[i + 1] == Scaled(b[1..], f)[i];
    }
  }

  lemma {:induction false} SixteenthsBound(b: seq<int>)
    requires NonNegative(b)
    ensures Total(b) - 15 * |b| <= 16 * Sixteenths(b)
  {
    if b == [] {
    } else {
      SixteenthsBound(b[1..]);
    }
  }

  /** The correction loop absorbs `rest` completely when the sixteenths allow it. */
  lemma {:induction false} CorrectionAbsorbs(b: seq<int>, rest: int)
    requires NonNegative(b) && 0 <= rest <= Sixteenths(b)
    ensures NonNegative(Corrected(b, rest)) && Total(Corrected(b, rest)) == Total(b) + rest
    ensures forall i :: 0 <= i < |b| ==> b[i] <= Corrected(b, rest)[i] <= b[i] + rest
  {
    if b == [] {
    } else {
      var c := Min(rest, b[0] / 16);
      SixteenthsNonNegative(b[1..]);
      CorrectionAbsorbs(b[1..], rest - c);
      assert Corrected(b, rest)[1..] == Corrected(b[1..], rest - c);
    }
  }

  lemma {:induction false} SixteenthsNonNegative(b: seq<int>)
    requires NonNegative(b)
    ensures 0 <= Sixteenths(b)
  {
    if b == [] {
    } else {
      SixteenthsNonNegative(b[1..]);
    }
  }

  lemma ScaledTotalBounds(b: seq<int>, f: int)
    requires NonNegative(b) && 0 < |b| && 0 <= f < 32768
    requires Total(b) == 0x4000_0000 || f == 0
    ensures NonNegative(Scaled(b, f))
    ensures f * 32768 - |b| < Total(Scaled(b, f)) <= f * 32768
  {
    TotalScaled(b, f);
    if f == 0 {
      var s := Scaled(b, f);
      forall i | 0 <= i < |s| ensures s[i] == 0 {
        assert b[i] * 0 == 0;
      }
      ZeroTotal(s);
    } else {
      assert f * Total(b) == f * 0x4000_0000;
    }
  }

  /** Short of 2^30 by less than the number of buckets, and nowhere negative. */
  ghost predicate AlmostFull(w: seq<int>) {
    NonNegative(w) && 0 <= 0x4000_0000 - Total(w) < |w|
  }

  lemma AddWeight(s: seq<int>, value: nat, weight: int, w: seq<int>)
    requires NonNegative(s) && value < |s| && 0 <= weight && w == s[value := s[value] + weight]
    ensures NonNegative(w) && Total(w) == Total(s) + weight
  {
    TotalUpdate(s, value, s[value] + weight);
  }

  lemma AddSample(s: seq<int>, f: int, value: nat, w: seq<int>)
    requires NonNegative(s) && value < |s| && 0 <= f < 32768
    requires f * 32768 - |s| < Total(s) <= f * 32768
    requires w == WithSample(s, f, value)
    ensures AlmostFull(w)
  {
    AddWeight(s, value, (32768 - f) * 32768, w);
  }

  /** Before the correction the total is short of 2^30 by less than the number of buckets. */
  lemma DeficitIsSmall(b: seq<int>, f: int, value: nat, w: seq<int>)
    requires NonNegative(b) && value < |b| && 0 <= f < 32768
    requires Total(b) == 0x4000_0000 || f == 0
    requires w == Weighted(b, f, value)
    ensures AlmostFull(w)
  {
    ScaledTotalBounds(b, f);
    AddSample(Scaled(b, f), f, value, w);
  }

  lemma {:induction false} ZeroTotal(b: seq<int>)
    requires forall i :: 0 <= i < |b| ==> b[i] == 0
    ensures Total(b) == 0
  {
    if b == [] {
    } else {
      ZeroTotal(b[1..]);
    }
  }

  /** The correction can always be made, and each bucket receives at most the deficit. */
  lemma CorrectionSuffices(w: seq<int>)
    requires AlmostFull(w) && |w| <= MAX_BUCKETS
    ensures var r := Repaired(w);
      && NonNegative(r) && Total(r) == 0x4000_0000
      && (forall i :: 0 <= i < |w| ==> w[i] <= r[i] < w[i] + |w|)
      && (forall i :: 0 <= i < |w| ==> r[i] <= 0x4000_0000)
  {
    SixteenthsBound(w);
    CorrectionAbsorbs(w, 0x4000_0000 - Total(w));
    var r := Corrected(w, 0x4000_0000 - Total(w));
    forall i | 0 <= i < |w| ensures r[i] <= 0x4000_0000 {
      TotalBound(r, i);
    }
  }

  /**
   Mass is exact: after an observation the buckets are nonnegative, within i32, and sum to exactly
   2^30, for any bucket count up to MAX_BUCKETS, provided they did before or nothing is remembered.
   */
  lemma MassIsExact(b: seq<int>, f: int, value: nat)
    requires NonNegative(b) && value < |b| <= MAX_BUCKETS && 0 <= f < 32768
    requires Total(b) == 0x4000_0000 || f == 0
    ensures NonNegative(Added(b, f, value))
    ensures Total(Added(b, f, value)) == 0x4000_0000
    ensures forall i :: 0 <= i < |b| ==> Added(b, f, value)[i] <= 0x4000_0000 <= I32_MAX
  {
    var w := Weighted(b, f, value);
    DeficitIsSmall(b, f, value, w);
    CorrectionSuffices(w);
    assert Added(b, f, value) == Repaired(w);
  }

  /** Bucket `i` after an ideal, rounding-free update, times 2^15. */
  ghost function IdealTimesQ15(b: seq<int>, f: int, value: nat, i: nat): int
    requires i < |b|
  {
    b[i] * f + (if i == value then (32768 - f) * 32768 * 32768 else 0)
  }

  /** Each weighted bucket is the ideal one, truncated by less than one unit ... */
  lemma TruncationIsSmall(b: seq<int>, f: int, value: nat, i: nat)
    requires NonNegative(b) && value < |b| && 0 <= f < 32768 && i < |b|
    ensures IdealTimesQ15(b, f, value, i) - 32768 < 32768 * Weighted(b, f, value)[i] <= IdealTimesQ15(b, f, value, i)
  {
    ScaleOne(b[i], f);
    assert Scaled(b, f)[i] == b[i] * f / 32768;
  }

  /** ... and the correction then raises it by fewer units than there are buckets. */
  lemma CorrectionIsSmall(b: seq<int>, f: int, value: nat, w: seq<int>)
    requires NonNegative(b) && value < |b| <= MAX_BUCKETS && 0 <= f < 32768
    requires Total(b) == 0x4000_0000 || f == 0
    requires w == Weighted(b, f, value)
    ensures forall i :: 0 <= i < |b| ==> w[i] <= Added(b, f, value)[i] < w[i] + |b|
  {
    DeficitIsSmall(b, f, value, w);
    CorrectionSuffices(w);
    assert Added(b, f, value) == Repaired(w);
  }

  // ===== forget factor ==============================================================

  function RampTarget(weight: real, count: nat): int {
    Round(32768.0 * (1.0 - weight / (count as real + 1.0)))
  }

  /** The forget factor after the `count`-th observation. */
  function NextForget(f: int, base: int, weight: Option<real>, count: nat): int {
    match weight
    case Some(w) => if f != base then Max(0, Min(base, RampTarget(w, count))) else f
    case None => f + (base - f + 3) / 4
  }

  /** Forget factor after `n` observations since construction or reset. */
  ghost function ForgetAfter(base: int, weight: Option<real>, n: nat): int {
    if n == 0 then 0
    else NextForget(ForgetAfter(base, weight, n - 1), base, weight, Saturated(n))
  }

  lemma RoundMonotone(x: real, y: real)
    requires x <= y
    ensures Round(x) <= Round(y)
  {
  }

  /** A larger divisor gives a smaller quotient. */
  lemma QuotientsShrink(w: real, p: real, q: real, x: real, y: real)
    requires 0.0 <= w && 0.0 < p <= q && x * p == w && y * q == w
    ensures y <= x
  {
    if x < y {
      if x < 0.0 {
        ScaleLess(x, 0.0, p);
      } else {
        ScaleUp(x, p, q);
        ScaleLess(x, y, q);
      }
    }
  }

  lemma RampMonotone(weight: real, m: nat, n: nat)
    requires m <= n && 0.0 <= weight
    ensures RampTarget(weight, m) <= RampTarget(weight, n)
  {
    var p, q := m as real + 1.0, n as real + 1.0;
    var x, y := weight / p, weight / q;
    QuotientsShrink(weight, p, q, x, y);
    RoundMonotone(32768.0 * (1.0 - x), 32768.0 * (1.0 - y));
  }

  lemma ScaleLess(x: real, y: real, q: real)
    requires x < y && 0.0 < q
    ensures x * q < y * q
  {
  }

  lemma ScaleUp(x: real, p: real, q: real)
    requires 0.0 <= x && p <= q
    ensures x * p <= x * q
  {
  }

  /** After `n` observations the factor is at its base, or at the clamped ramp (0 before any). */
  lemma {:induction false} ForgetShape(base: int, weight: real, n: nat)
    requires 0 <= base < 32768
    ensures 0 <= ForgetAfter(base, Some(weight), n) <= base
    ensures var f := ForgetAfter(base, Some(weight), n);
      f == base || (if n == 0 then f == 0 else f == Max(0, Min(base, RampTarget(weight, Saturated(n)))))
  {
    if n == 0 {
    } else {
      ForgetShape(base, weight, n - 1);
    }
  }

  lemma {:induction false} ForgetInRange(base: int, weight: Option<real>, n: nat)
    requires 0 <= base < 32768
    ensures 0 <= ForgetAfter(base, weight, n) <= base
  {
    if n == 0 {
    } else {
      ForgetInRange(base, weight, n - 1);
    }
  }

  lemma NegativeWeightIsBase(weight: real, count: nat)
    requires weight < 0.0
    ensures RampTarget(weight, count) >= 32768
  {
    var x := weight / (count as real + 1.0);
    assert x * (count as real + 1.0) == weight;
    if x > 0.0 {
      ScaleLess(0.0, x, count as real + 1.0);
    }
    RoundMonotone(32768.0, 32768.0 * (1.0 - x));
  }

  /** Between resets the forget factor never decreases, for every start weight or none. */
  lemma ForgetNeverDecreases(base: int, weight: Option<real>, n: nat)
    requires 0 <= base < 32768
    ensures ForgetAfter(base, weight, n) <= ForgetAfter(base, weight, n + 1) <= base
  {
    ForgetInRange(base, weight, n);
    ForgetInRange(base, weight, n + 1);
    if weight.Some? {
      ForgetShape(base, weight.value, n);
      if weight.value < 0.0 {
        NegativeWeightIsBase(weight.value, Saturated(n + 1));
      } else {
        RampMonotone(weight.value, Saturated(n), Saturated(n + 1));
      }
    }
  }

  /** Without a start weight each observation moves the factor strictly closer, until it is the base. */
  lemma ForgetApproachesBase(base: int, n: nat)
    requires 0 <= base < 32768
    ensures ForgetAfter(base, None, n) == base ==> ForgetAfter(base, None, n + 1) == base
    ensures ForgetAfter(base, None, n) < base ==>
      ForgetAfter(base, None, n) < ForgetAfter(base, None, n + 1) <= base
  {
    ForgetInRange(base, None, n);
  }

  /** Each observation takes a quarter of the distance, rounded up: three quarters of it are left, rounded down. */
  lemma ForgetLeavesThreeQuarters(base: int, n: nat)
    requires 0 <= base < 32768
    ensures var left := base - ForgetAfter(base, None, n); base - ForgetAfter(base, None, n + 1) == 3 * left / 4
  {
    ForgetInRange(base, None, n);
  }

  lemma {:induction false} ForgetReachesBase(base: int, n: nat)
    requires 0 <= base < 32768
    ensures base - ForgetAfter(base, None, n) <= Max(0, base - n)
  {
    ForgetInRange(base, None, n);
    if n == 0 {
    } else {
      ForgetReachesBase(base, n - 1);
      ForgetApproachesBase(base, n - 1);
    }
  }

  // ----- the newest sample weighs at least as much as older ones ----------------------

  /** New sample weight against the weight left to the previous sample, in Q15. */
  predicate NewestWeighsMost(oldF: int, newF: int) {
    32768 - newF >= (32768 - oldF) * newF / 32768
  }

  lemma RoundBounds(x: real)
    ensures x - 0.5 <= Round(x) as real <= x + 0.5
  {
  }

  lemma ScaleLessEq(a: real, b: real, m: real)
    requires a <= b && 0.0 <= m
    ensures a * m <= b * m
  {
  }

  /** Weight 2^15 * weight over `k` samples, rounded, within one half. */
  ghost predicate IsWeight(g: real, k: real, w: real) {
    (2.0 * g - 1.0) * k <= 2.0 * w <= (2.0 * g + 1.0) * k
  }

  /** `g` is within one half of `y`, so its multiples are within k halves of `y` times `k`. */
  lemma WithinHalf(g: real, y: real, k: real)
    requires 0.0 < k && 2.0 * g - 1.0 <= 2.0 * y <= 2.0 * g + 1.0
    ensures IsWeight(g, k, y * k)
  {
    ScaleLessEq(2.0 * g - 1.0, 2.0 * y, k);
    ScaleLessEq(2.0 * y, 2.0 * g + 1.0, k);
    assert 2.0 * y * k == 2.0 * (y * k);
  }

  lemma RoundedQuotient(y: real, k: real, g: real)
    requires 0.0 < k && g == 32768.0 - Round(32768.0 - y) as real
    ensures IsWeight(g, k, y * k)
  {
    RoundBounds(32768.0 - y);
    WithinHalf(g, y, k);
  }

  /** The new sample's weight after `count` samples is 2^15 * weight / (count + 1), rounded. */
  lemma RampBounds(weight: real, count: nat)
    ensures IsWeight(32768.0 - RampTarget(weight, count) as real, count as real + 1.0, 32768.0 * weight)
  {
    var k := count as real + 1.0;
    var q := weight / k;
    assert 32768.0 * (1.0 - q) == 32768.0 - 32768.0 * q;
    RoundedQuotient(32768.0 * q, k, 32768.0 - RampTarget(weight, count) as real);
    assert 32768.0 * q * k == 32768.0 * weight by {
      assert q * k == weight;
    }
  }

  /** Weights of `k` and `k + 1` samples differ by at most one k-th of the smaller one, and one. */
  lemma DropBound(k: int, g: int, h: int)
    requires (2 * g - 1) * k <= (2 * h + 1) * (k + 1)
    ensures k * (g - h - 1) <= h
  {
    assert (2 * h + 1) * (k + 1) - (2 * g - 1) * k == 2 * h + 1 - 2 * (k * (g - h - 1));
  }

  /**
   The core inequality: `g` and `h` are the weights w / k and w / (k + 1) rounded (`h` possibly raised
   by the clamp). Their difference is at most their product over 2^15, rounded up.
   */
  lemma WeightsDropSlowly(k: int, g: int, h: int)
    requires 2 <= k && 1 <= h && 2 <= g - h
    requires (2 * g - 1) * k <= (2 * h + 1) * (k + 1) && 65536 <= (2 * h + 1) * (k + 1)
    ensures 32768 * (g - h - 1) < g * h
  {
    var d := g - h - 1;
    var q := k * d;
    DropBound(k, g, h);
    if g * h <= 32768 * d {
      MulLessEq(d, 65536, (2 * h + 1) * (k + 1));
      assert d * ((2 * h + 1) * (k + 1)) == 2 * (h * q) + 2 * (h * d) + q + d;
      assert g * h == h * h + h * d + h;
      MulLessEq(h, q, h);
      assert 2 * h <= q + d;
      MulLessEq(d, 2, k);
    }
  }

  lemma CeilForm(g: int, h: int)
    requires 1 <= g && 1 <= h
    requires g - h <= 1 || 32768 * (g - h - 1) < g * h
    ensures h >= g * (32768 - h) / 32768
  {
    assert g * (32768 - h) == 32768 * g - g * h;
    assert g * h >= 1;
    assert 32768 * g - g * h < 32768 * (h + 1);
  }

  lemma ProductAsReal(a: int, b: int)
    ensures (a * b) as real == a as real * b as real
  {
  }

  /** The bounds on the rounded weights, in integers; `h` may exceed the ramp's own weight `low`. */
  lemma IntegerWeights(k: nat, w: real, g: int, h: int, low: real)
    requires 32767.5 < w && low <= h as real
    requires IsWeight(g as real, k as real, w) && IsWeight(low, k as real + 1.0, w)
    ensures (2 * g - 1) * k <= (2 * h + 1) * (k + 1) && 65536 <= (2 * h + 1) * (k + 1)
  {
    var a, b, c := 2 * g - 1, 2 * h + 1, k + 1;
    ScaleLessEq(2.0 * low + 1.0, b as real, c as real);
    ProductAsReal(a, k);
    ProductAsReal(b, c);
    assert a as real * k as real <= 2.0 * w <= b as real * c as real;
    assert 65535.0 < (b * c) as real;
  }

  /** One step of the ramp: `f` is the ramp after `c` samples, `f'` the next, possibly clamped. */
  lemma RampStep(weight: real, c: nat, f: int, f': int)
    requires 1 <= c && 1.0 - 1.0 / 65536.0 < weight && f == RampTarget(weight, c)
    requires f <= f' <= RampTarget(weight, c + 1) && f' < 32768
    ensures NewestWeighsMost(f, f')
  {
    var g, h := 32768 - f, 32768 - f';
    if g - h >= 2 {
      RampBounds(weight, c);
      RampBounds(weight, c + 1);
      IntegerWeights(c + 1, 32768.0 * weight, g, h, 32768.0 - RampTarget(weight, c + 1) as real);
      WeightsDropSlowly(c + 1, g, h);
    }
    CeilForm(g, h);
  }

  /** `w` over `m` samples, rounded, is more than 2^14 - 1 when w exceeds (2^14 - 1/2) m. */
  lemma WeightStaysHigh(m: real, w: real, g: real)
    requires 0.0 <= m && IsWeight(g, m, w) && 32767.0 * m < 2.0 * w
    ensures 16383.0 < g
  {
    if g <= 16383.0 {
      ScaleLessEq(2.0 * g + 1.0, 32767.0, m);
    }
  }

  lemma WeightAboveOne(g: real, k: real, w: real)
    requires 32769.0 <= g && 0.0 <= k && IsWeight(g, k, w)
    ensures 65537.0 * k <= 2.0 * w
  {
    ScaleLessEq(65537.0, 2.0 * g - 1.0, k);
  }

  /** While the ramp is still below zero the factor is 0, and the next one is at most one half. */
  lemma LeavesZero(weight: real, n: nat)
    requires if n > 0 then RampTarget(weight, n) < 0 else 1.0 - 1.0 / 32768.0 < weight
    ensures RampTarget(weight, n + 1) <= 16384
  {
    RampBounds(weight, n + 1);
    if n > 0 {
      RampBounds(weight, n);
      WeightAboveOne(32768.0 - RampTarget(weight, n) as real, n as real + 1.0, 32768.0 * weight);
    }
    WeightStaysHigh(n as real + 2.0, 32768.0 * weight, 32768.0 - RampTarget(weight, n + 1) as real);
  }

  /** A factor of at most one half leaves the newest sample at least half of the weight. */
  lemma AtMostHalf(f: int, f': int)
    requires 0 <= f <= 32768 && 0 <= f' <= 16384
    ensures NewestWeighsMost(f, f')
  {
    MulLessEq(f', 32768 - f, 32768);
  }

  lemma SameFactor(f: int)
    requires 0 <= f < 32768
    ensures NewestWeighsMost(f, f)
  {
    CeilForm(32768 - f, 32768 - f);
  }

  /** After observation n + 1 the newest sample weighs at least as much as the one before it. */
  ghost predicate WeighsMostAfter(base: int, weight: real, n: nat) {
    NewestWeighsMost(ForgetAfter(base, Some(weight), n), ForgetAfter(base, Some(weight), n + 1))
  }

  /** With any start weight above 1 - 2^-16 (the default is 2.0) the newest sample always weighs most. */
  lemma NewestAlwaysWeighsMost(base: int, weight: real, n: nat)
    requires 0 <= base < 32768 && 1.0 - 1.0 / 65536.0 < weight
    ensures WeighsMostAfter(base, weight, n)
  {
    var f, f' := ForgetAfter(base, Some(weight), n), ForgetAfter(base, Some(weight), n + 1);
    ForgetNeverDecreases(base, Some(weight), n);
    ForgetInRange(base, Some(weight), n);
    if f == f' {
      SameFactor(f);
    } else {
      FactorMoves(base, weight, n);
      if n > 0 && RampTarget(weight, n) == f {
        RampStep(weight, n, f, f');
      } else {
        LeavesZero(weight, n);
        AtMostHalf(f, f');
      }
    }
  }

  /** With a base of at most one half it does so for every start weight. */
  lemma SmallBaseIsSafe(base: int, weight: real, n: nat)
    requires 0 <= base <= 16384
    ensures WeighsMostAfter(base, weight, n)
  {
    ForgetInRange(base, Some(weight), n);
    ForgetInRange(base, Some(weight), n + 1);
    AtMostHalf(ForgetAfter(base, Some(weight), n), ForgetAfter(base, Some(weight), n + 1));
  }

  /** Start weights that pass the first observation by rounding and reach 21846 on the second. */
  ghost predicate InBand(weight: real) {
    1.0 - 1.0 / 32768.0 < weight <= 1.0 - 1.0 / 65536.0
  }

  lemma BandFactors(base: int, weight: real)
    requires 16384 < base < 32768 && InBand(weight)
    ensures ForgetAfter(base, Some(weight), 0) == 0
    ensures ForgetAfter(base, Some(weight), 1) == 16384
    ensures ForgetAfter(base, Some(weight), 2) == Min(base, 21846)
  {
    assert RampTarget(weight, 1) == 16384;
    assert RampTarget(weight, 2) == 21846;
    assert ForgetAfter(base, Some(weight), 1) == Max(0, Min(base, RampTarget(weight, 1)));
    assert ForgetAfter(base, Some(weight), 2) == Max(0, Min(base, RampTarget(weight, 2)));
  }

  /** In the band a base of at most 21845 is reached on the second observation, just in time. */
  lemma {:induction false} BandIsSafe(base: int, weight: real, n: nat)
    requires 16384 < base <= 21845 && InBand(weight)
    ensures WeighsMostAfter(base, weight, n)
    ensures n >= 2 ==> ForgetAfter(base, Some(weight), n) == base
  {
    BandFactors(base, weight);
    if n == 0 {
      AtMostHalf(0, 16384);
    } else if n == 1 {
      assert (32768 - 16384) * base / 32768 <= 10922;
    } else {
      BandIsSafe(base, weight, n - 1);
      SameFactor(base);
    }
  }

  /**
   Exactly when the newest sample weighs at least as much as older ones after every observation:
   the base is at most one half, or the start weight is above 1 - 2^-16, or it is above 1 - 2^-15 and
   the base stops the ramp at its second step.
   */
  lemma NewestWeighsMostIff(base: int, weight: real)
    requires 0 <= base < 32768
    ensures (forall n: nat :: WeighsMostAfter(base, weight, n)) <==>
      (base <= 16384 || weight > 1.0 - 1.0 / 65536.0 || (weight > 1.0 - 1.0 / 32768.0 && base <= 21845))
  {
    if base <= 16384 {
      forall n: nat ensures WeighsMostAfter(base, weight, n) {
        SmallBaseIsSafe(base, weight, n);
      }
    } else if weight > 1.0 - 1.0 / 65536.0 {
      forall n: nat ensures WeighsMostAfter(base, weight, n) {
        NewestAlwaysWeighsMost(base, weight, n);
      }
    } else if InBand(weight) && base <= 21845 {
      forall n: nat ensures WeighsMostAfter(base, weight, n) {
        BandIsSafe(base, weight, n);
      }
    } else if InBand(weight) {
      BandFactors(base, weight);
      assert !WeighsMostAfter(base, weight, 1);
    } else {
      FirstObservationIff(base, weight);
      assert !WeighsMostAfter(base, weight, 0);
    }
  }

  /** The factor only moves inside the ramp, or away from zero. */
  lemma FactorMoves(base: int, weight: real, n: nat)
    requires 0 <= base < 32768
    ensures var f, f' := ForgetAfter(base, Some(weight), n), ForgetAfter(base, Some(weight), n + 1);
      f < f' ==>
        && n < U32_MAX && f' <= RampTarget(weight, n + 1)
        && ((n > 0 && f == RampTarget(weight, n)) || (f == 0 && (n > 0 ==> RampTarget(weight, n) < 0)))
  {
    ForgetShape(base, weight, n);
    ForgetShape(base, weight, n + 1);
  }

  /** A start weight of one half fails on the very first observation, and one of 1 - 2^-16 on the second. */
  lemma SmallStartWeightFails()
    ensures !WeighsMostAfter(32745, 0.5, 0)
    ensures !WeighsMostAfter(32745, 1.0 - 1.0 / 65536.0, 1)
  {
    FirstObservationIff(32745, 0.5);
    BandFactors(32745, 1.0 - 1.0 / 65536.0);
  }

  /** On the first observation it holds exactly when the new factor is at most one half. */
  lemma FirstObservationIff(base: int, weight: real)
    requires 0 <= base < 32768
    ensures WeighsMostAfter(base, weight, 0) <==> (base <= 16384 || weight > 1.0 - 1.0 / 32768.0)
  {
    var f := ForgetAfter(base, Some(weight), 1);
    var x := 32768.0 * (1.0 - weight / 2.0);
    assert ForgetAfter(base, Some(weight), 0) == 0;
    assert RampTarget(weight, 1) == Round(x);
    assert x < 16384.5 <==> weight > 1.0 - 1.0 / 32768.0;
    assert Round(x) <= 16384 <==> x < 16384.5;
    assert (32768 - 0) * f / 32768 == f;
  }

  // ===== runs of observations =======================================================

  /** Buckets after the observations `values`, starting from `start` with nothing remembered. */
  ghost function AfterAdds(start: seq<int>, base: int, weight: Option<real>, values: seq<nat>): (r: seq<int>)
    requires forall i :: 0 <= i < |values| ==> values[i] < |start|
    ensures |r| == |start|
  {
    if values == [] then start
    else
      var n := |values| - 1;
      Added(AfterAdds(start, base, weight, values[..n]), ForgetAfter(base, weight, n), values[n])
  }

  /** Over every run of observations the mass is exactly 2^30 from the first one on. */
  lemma {:induction false} RunsKeepMass(start: seq<int>, base: int, weight: Option<real>, values: seq<nat>)
    requires NonNegative(start) && |start| <= MAX_BUCKETS && 0 <= base < 32768
    requires forall i :: 0 <= i < |values| ==> values[i] < |start|
    ensures NonNegative(AfterAdds(start, base, weight, values))
    ensures values != [] ==> Total(AfterAdds(start, base, weight, values)) == 0x4000_0000
  {
    if values == [] {
    } else {
      var n := |values| - 1;
      RunsKeepMass(start, base, weight, values[..n]);
      ForgetInRange(base, weight, n);
      MassIsExact(AfterAdds(start, base, weight, values[..n]), ForgetAfter(base, weight, n), values[n]);
    }
  }

  // ===== quantile =====================================================================

  /** Mass of the buckets 0 .. i. */
  ghost function Cumulative(b: seq<int>, i: nat): int
    requires i < |b|
  {
    Total(b[..i + 1])
  }

  /** `index` is the smallest bucket whose cumulative mass reaches `p`; the last one if none does. */
  ghost predicate IsQuantile(b: seq<int>, p: int, index: nat) {
    && index < |b|
    && (Cumulative(b, index) >= p || index == |b| - 1)
    && forall j: nat :: j < index ==> Cumulative(b, j) < p
  }

  lemma {:induction false} TotalAppend(b: seq<int>, x: int)
    ensures Total(b + [x]) == Total(b) + x
  {
    if b == [] {
      assert [x][1..] == [];
    } else {
      TotalAppend(b[1..], x);
      assert (b + [x])[1..] == b[1..] + [x];
    }
  }

  /** With full mass the probability is always reached. */
  lemma QuantileIsReached(b: seq<int>, p: int, index: nat)
    requires Total(b) == 0x4000_0000 && p <= 0x4000_0000 && IsQuantile(b, p, index)
    ensures Cumulative(b, index) >= p
  {
    assert b[..|b|] == b;
  }

  /** The quantile is unique and monotone in the probability. */
  lemma QuantileIsMonotone(b: seq<int>, p: int, q: int, i: nat, j: nat)
    requires p <= q && IsQuantile(b, p, i) && IsQuantile(b, q, j)
    ensures i <= j
    ensures p == q ==> i == j
  {
  }

  /** A probability in fixed point. */
  function ToQ30(probability: real): int { Round(probability * 1073741824.0) }

  /** The nearest multiple of 2^-30. */
  lemma ToQ30IsNearest(probability: real)
    ensures -0.5 <= ToQ30(probability) as real - probability * 1073741824.0 <= 0.5
  {
    RoundBounds(probability * 1073741824.0);
  }

  lemma ToQ30InRange(probability: real)
    requires 0.0 <= probability <= 1.0
    ensures 0 <= ToQ30(probability) <= 0x4000_0000
  {
  }

  // ===== the class ======================================================================

  /** What is left to compensate when the correction loop reaches bucket `i`. */
  ghost function Remaining(w: seq<int>, rest: int, i: nat): int
    requires i <= |w|
  {
    if i == 0 then rest
    else Remaining(w, rest, i - 1) - Min(Remaining(w, rest, i - 1), w[i - 1] / 16)
  }

  lemma {:induction false} RemainingShift(w: seq<int>, rest: int, i: nat)
    requires i < |w|
    ensures Remaining(w, rest, i + 1) == Remaining(w[1..], rest - Min(rest, w[0] / 16), i)
  {
    if i == 0 {
    } else {
      RemainingShift(w, rest, i - 1);
      assert w[1..][i - 1] == w[i];
    }
  }

  lemma {:induction false} CorrectedAt(w: seq<int>, rest: int, i: nat)
    requires i < |w|
    ensures Corrected(w, rest)[i] == w[i] + Min(Remaining(w, rest, i), w[i] / 16)
  {
    if i == 0 {
    } else {
      CorrectedAt(w[1..], rest - Min(rest, w[0] / 16), i - 1);
      RemainingShift(w, rest, i - 1);
    }
  }

  lemma {:induction false} RemainingZero(w: seq<int>, rest: int, i: nat, k: nat)
    requires NonNegative(w) && i <= k <= |w| && Remaining(w, rest, i) == 0
    ensures Remaining(w, rest, k) == 0
  {
    if i == k {
    } else {
      RemainingZero(w, rest, i, k - 1);
    }
  }

  /** Once nothing remains, the correction leaves the later buckets alone. */
  lemma RestUnchanged(w: seq<int>, rest: int, i: nat)
    requires NonNegative(w) && i <= |w| && Remaining(w, rest, i) == 0
    ensures forall k :: i <= k < |w| ==> Corrected(w, rest)[k] == w[k]
  {
    forall k | i <= k < |w| ensures Corrected(w, rest)[k] == w[k] {
      CorrectedAt(w, rest, k);
      RemainingZero(w, rest, i, k);
    }
  }

  /** The distribution of a reset: halving from slightly more than one half. */
  ghost function HalvedQ14(i: nat): (h: nat)
    ensures h <= 0x2001
  {
    if i == 0 then 0x2001 else HalvedQ14(i - 1) / 2
  }

  ghost function ResetBuckets(n: nat): seq<int> {
    seq(n, i requires 0 <= i < n => HalvedQ14(i) * 65536)
  }

  lemma ResetIsSmall(n: nat)
    ensures NonNegative(ResetBuckets(n))
    ensures forall k :: 0 <= k < n ==> ResetBuckets(n)[k] <= 0x4000_0000
  {
  }

  function Pow2(k: nat): (p: nat)
    ensures p > 0 && (k > 0 ==> p > 1)
  {
    if k == 0 then 1 else 2 * Pow2(k - 1)
  }

  lemma {:induction false} HalvedIsPower(i: nat)
    requires i > 0
    ensures i <= 13 ==> HalvedQ14(i) == Pow2(13 - i)
    ensures i > 13 ==> HalvedQ14(i) == 0
  {
    if i == 1 {
      assert Pow2(12) == 8 * Pow2(9) == 64 * Pow2(6) == 512 * Pow2(3) == 4096 * Pow2(0);
    } else {
      HalvedIsPower(i - 1);
    }
  }

  /** What a reset to `n` buckets lacks of 2^14, before the shift to Q30. */
  lemma {:induction false} ResetTotal(n: nat)
    requires n > 0
    ensures Total(ResetBuckets(n)) == (0x4000 - (if n <= 14 then Pow2(14 - n) - 1 else 0)) * 65536
  {
    var last := HalvedQ14(n - 1) * 65536;
    assert ResetBuckets(n) == ResetBuckets(n - 1) + [last];
    TotalAppend(ResetBuckets(n - 1), last);
    if n == 1 {
      assert ResetBuckets(0) == [];
      HalvedIsPower(1);
      assert Pow2(13) == 2 * Pow2(12);
    } else {
      ResetTotal(n - 1);
      HalvedIsPower(n - 1);
    }
  }

  /** A reset distributes exactly 2^30, provided there are at least 14 buckets. */
  lemma ResetIsFullIff(n: nat)
    ensures Total(ResetBuckets(n)) == 0x4000_0000 <==> n >= 14
  {
    if n == 0 {
      assert ResetBuckets(0) == [];
    } else {
      ResetTotal(n);
    }
  }

  class Histogram {
    const buckets: array<int>
    var forgetFactor: int
    const baseForgetFactor: int
    var addCount: nat
    const startForgetWeight: Option<real>
    /** Observations since construction or reset. */
    ghost var adds: nat

    ghost predicate Valid()
      reads this, buckets
    {
      && 0 < buckets.Length <= MAX_BUCKETS
      && 0 <= baseForgetFactor < 32768
      && NonNegative(buckets[..])
      && (forall i :: 0 <= i < buckets.Length ==> buckets[i] <= 0x4000_0000)
      && (adds > 0 ==> Total(buckets[..]) == 0x4000_0000)
      && addCount == Saturated(adds)
      && forgetFactor == ForgetAfter(baseForgetFactor, startForgetWeight, adds)
    }

    constructor (numBuckets: nat, baseForget: real, startWeight: Option<real>)
      requires 0 < numBuckets <= MAX_BUCKETS
      requires 0.0 <= baseForget && Round(baseForget * 32768.0) < 32768
      ensures Valid() && fresh(buckets) && adds == 0
      ensures buckets.Length == numBuckets && startForgetWeight == startWeight
      ensures baseForgetFactor == Round(baseForget * 32768.0)
      ensures forall i :: 0 <= i < numBuckets ==> buckets[i] == 0
    {
      buckets := new int[numBuckets](_ => 0);
      forgetFactor, addCount, adds := 0, 0, 0;
      baseForgetFactor, startForgetWeight := Round(baseForget * 32768.0), startWeight;
    }

    /** Multiplies every bucket by the forget factor and returns the new sum. */
    method Forget() returns (vectorSum: int)
      requires Valid()
      modifies buckets
      ensures buckets[..] == Scaled(old(buckets[..]), forgetFactor)
      ensures vectorSum == Total(buckets[..])
    {
      ghost var b := buckets[..];
      ForgetInRange(baseForgetFactor, startForgetWeight, adds);
      vectorSum := 0;
      for i := 0 to buckets.Length
        invariant forall k :: 0 <= k < i ==> buckets[k] == Scaled(b, forgetFactor)[k]
        invariant forall k :: i <= k < buckets.Length ==> buckets[k] == b[k]
        invariant vectorSum == Total(Scaled(b, forgetFactor)[..i])
      {
        var tmp := buckets[i] * forgetFactor / 32768;
        assert tmp == Scaled(b, forgetFactor)[i];
        buckets[i] := tmp;
        vectorSum := vectorSum + tmp;
        TotalAppend(Scaled(b, forgetFactor)[..i], tmp);
        assert Scaled(b, forgetFactor)[..i + 1] == Scaled(b, forgetFactor)[..i] + [tmp];
      }
      assert buckets[..] == Scaled(b, forgetFactor);
      assert Scaled(b, forgetFactor)[..buckets.Length] == Scaled(b, forgetFactor);
    }

    /** Compensates the rounding error, from the front, taking up to a sixteenth of each bucket. */
    method Correct(vectorSum0: int, ghost w: seq<int>)
      requires w == buckets[..] && AlmostFull(w) && 0 < |w| <= MAX_BUCKETS
      requires vectorSum0 == Total(w) - 0x4000_0000
      modifies buckets
      ensures buckets[..] == Repaired(w)
      ensures Total(buckets[..]) == 0x4000_0000
    {
      ghost var deficit, target := -vectorSum0, Repaired(w);
      var vectorSum := vectorSum0;
      var subtract := vectorSum > 0;
      var i := 0;
      while vectorSum != 0 && i < buckets.Length
        invariant 0 <= i <= buckets.Length
        invariant vectorSum <= 0 && -vectorSum == Remaining(w, deficit, i)
        invariant forall k :: 0 <= k < i ==> buckets[k] == target[k]
        invariant forall k :: i <= k < buckets.Length ==> buckets[k] == w[k]
        decreases buckets.Length - i
      {
        var limit := Min(if vectorSum < 0 then -vectorSum else vectorSum, buckets[i] / 16);
        var correction := if subtract then -Max(limit, 0) else Max(limit, 0);
        CorrectedAt(w, deficit, i);
        buckets[i] := buckets[i] + correction;
        vectorSum := vectorSum + correction;
        i := i + 1;
      }
      if vectorSum == 0 {
        RestUnchanged(w, deficit, i);
      }
      assert buckets[..] == target;
      CorrectionSuffices(w);
    }

    /** Adds the new sample's weight to its bucket and to the sum. */
    method Deposit(value: nat, vectorSum: int) returns (sum: int)
      requires value < buckets.Length && vectorSum == Total(buckets[..])
      modifies buckets
      ensures buckets[..] == WithSample(old(buckets[..]), forgetFactor, value) && sum == Total(buckets[..])
    {
      var addAmount := (32768 - forgetFactor) * 32768;
      TotalUpdate(buckets[..], value, buckets[value] + addAmount);
      buckets[value] := buckets[value] + addAmount;
      sum := vectorSum + addAmount;
    }

    /** Forget, add the new sample, put the truncation error back. */
    method UpdateBuckets(value: nat)
      requires Valid() && value < buckets.Length
      modifies buckets
      ensures buckets[..] == Added(old(buckets[..]), forgetFactor, value)
      ensures NonNegative(buckets[..]) && Total(buckets[..]) == 0x4000_0000
      ensures forall i :: 0 <= i < buckets.Length ==> buckets[i] <= 0x4000_0000
    {
      ghost var b := buckets[..];
      ForgetInRange(baseForgetFactor, startForgetWeight, adds);
      DeficitIsSmall(b, forgetFactor, value, Weighted(b, forgetFactor, value));
      MassIsExact(b, forgetFactor, value);
      var vectorSum := Forget();
      vectorSum := Deposit(value, vectorSum);
      Correct(vectorSum - 0x4000_0000, buckets[..]);
    }

    method Add(value: nat)
      requires Valid() && value < buckets.Length
      modifies this, buckets
      ensures Valid() && adds == old(adds) + 1
      ensures buckets[..] == Added(old(buckets[..]), old(forgetFactor), value)
      ensures forgetFactor == NextForget(old(forgetFactor), baseForgetFactor, startForgetWeight, addCount)
    {
      UpdateBuckets(value);
      addCount, adds := Saturated(addCount + 1), adds + 1;
      RampForget();
    }

    method RampForget()
      modifies this`forgetFactor
      ensures forgetFactor == NextForget(old(forgetFactor), baseForgetFactor, startForgetWeight, addCount)
    {
      if startForgetWeight.Some? {
        if forgetFactor != baseForgetFactor {
          forgetFactor := Max(0, Min(baseForgetFactor, RampTarget(startForgetWeight.value, addCount)));
        }
      } else {
        forgetFactor := forgetFactor + (baseForgetFactor - forgetFactor + 3) / 4;
      }
    }

    method Quantile(probability: real) returns (index: nat)
      requires Valid() && 0.0 <= probability <= 1.0
      ensures IsQuantile(buckets[..], ToQ30(probability), index)
      ensures adds > 0 ==> Cumulative(buckets[..], index) >= ToQ30(probability)
    {
      ghost var b := buckets[..];
      var inverseProbability := 0x4000_0000 - ToQ30(probability);
      index := 0;
      var sum := 0x4000_0000 - buckets[0];
      assert b[..1] == [] + [b[0]];
      TotalAppend([], b[0]);
      while sum > inverseProbability && index < buckets.Length - 1
        invariant index < buckets.Length
        invariant sum == 0x4000_0000 - Cumulative(b, index)
        invariant forall j: nat :: j < index ==> Cumulative(b, j) < ToQ30(probability)
        decreases buckets.Length - index
      {
        index := index + 1;
        sum := sum - buckets[index];
        assert b[..index + 1] == b[..index] + [b[index]];
        TotalAppend(b[..index], b[index]);
      }
      if adds > 0 {
        ToQ30InRange(probability);
        QuantileIsReached(b, ToQ30(probability), index);
      }
    }

    method FillExponential()
      modifies buckets
      ensures buckets[..] == ResetBuckets(buckets.Length) && NonNegative(buckets[..])
      ensures forall k :: 0 <= k < buckets.Length ==> buckets[k] <= 0x4000_0000
    {
      ghost var target := ResetBuckets(buckets.Length);
      ResetIsSmall(buckets.Length);
      var tempProb: nat := 0x4002;
      for i := 0 to buckets.Length
        invariant tempProb == if i == 0 then 0x4002 else HalvedQ14(i - 1)
        invariant forall k :: 0 <= k < i ==> buckets[k] == target[k]
      {
        tempProb := tempProb / 2;
        assert tempProb == HalvedQ14(i);
        buckets[i] := tempProb * 65536;
      }
      assert buckets[..] == target;
    }

    method Reset()
      requires Valid()
      modifies this, buckets
      ensures Valid() && adds == 0
      ensures buckets[..] == ResetBuckets(buckets.Length)
    {
      FillExponential();
      forgetFactor, addCount, adds := 0, 0, 0;
    }
  }
}
