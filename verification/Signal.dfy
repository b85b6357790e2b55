/** Signal kernels shared by the time stretchers (neteq/src/signal.rs), over reals. */
module Signal {
  import opened Numbers

  function Cross(x: real, y: real): real { x * y }

  /** The larger of the two sample powers: the normaliser of one sample pair. */
  function PeakPower(x: real, y: real): real { MaxReal(x * x, y * y) }

  // ----- reference definitions -------------------------------------------------

  /** Cross product of the two signals over the window [lo, hi). */
  ghost function Dot(a: seq<real>, b: seq<real>, lo: nat, hi: nat): real
    requires lo <= hi <= |a| == |b|
    decreases hi
  {
    if lo == hi then 0.0 else Dot(a, b, lo, hi - 1) + Cross(a[hi - 1], b[hi - 1])
  }

  /** Sum of the pairwise peak powers over the window [lo, hi). */
  ghost function Power(a: seq<real>, b: seq<real>, lo: nat, hi: nat): real
    requires lo <= hi <= |a| == |b|
    decreases hi
  {
    if lo == hi then 0.0 else Power(a, b, lo, hi - 1) + PeakPower(a[hi - 1], b[hi - 1])
  }

  /** Correlation over energy of the windows of length `len` that start at `i`. */
  ghost function NormalizedCorrelation(a: seq<real>, b: seq<real>, i: nat, len: nat): real
    requires i + len <= |a| == |b|
  {
    if Power(a, b, i, i + len) == 0.0 then 1.0 else Dot(a, b, i, i + len) / Power(a, b, i, i + len)
  }

  // ----- facts about one sample pair -------------------------------------------

  lemma ProductSign(x: real, y: real)
    ensures x >= 0.0 && y >= 0.0 ==> x * y >= 0.0
    ensures x <= 0.0 && y <= 0.0 ==> x * y >= 0.0
    ensures x != 0.0 && y != 0.0 ==> x * y != 0.0
  {
  }

  lemma PairBound(x: real, y: real)
    ensures PeakPower(x, y) >= 0.0
    ensures -PeakPower(x, y) <= x * y <= PeakPower(x, y)
    ensures x * y == PeakPower(x, y) <==> x == y
  {
    ProductSign(x - y, x - y);
    ProductSign(x + y, x + y);
    assert (x - y) * (x - y) == x * x - 2.0 * (x * y) + y * y;
    assert (x + y) * (x + y) == x * x + 2.0 * (x * y) + y * y;
  }

  // ----- facts about windows ---------------------------------------------------

  lemma {:induction false} WindowBound(a: seq<real>, b: seq<real>, lo: nat, hi: nat)
    requires lo <= hi <= |a| == |b|
    ensures Power(a, b, lo, hi) >= 0.0
    ensures -Power(a, b, lo, hi) <= Dot(a, b, lo, hi) <= Power(a, b, lo, hi)
    ensures Dot(a, b, lo, hi) == Power(a, b, lo, hi) <==> a[lo..hi] == b[lo..hi]
    decreases hi
  {
    if lo == hi {
    } else {
      WindowBound(a, b, lo, hi - 1);
      PairBound(a[hi - 1], b[hi - 1]);
      var wa, wb := a[lo..hi], b[lo..hi];
      assert wa == a[lo..hi - 1] + [a[hi - 1]];
      assert wb == b[lo..hi - 1] + [b[hi - 1]];
      assert wa == wb <==> wa[..hi - lo - 1] == wb[..hi - lo - 1] && wa[hi - lo - 1] == wb[hi - lo - 1];
    }
  }

  lemma {:induction false} DropFirst(a: seq<real>, b: seq<real>, lo: nat, hi: nat)
    requires lo < hi <= |a| == |b|
    ensures Dot(a, b, lo, hi) == Cross(a[lo], b[lo]) + Dot(a, b, lo + 1, hi)
    ensures Power(a, b, lo, hi) == PeakPower(a[lo], b[lo]) + Power(a, b, lo + 1, hi)
    decreases hi
  {
    if lo + 1 == hi {
    } else {
      DropFirst(a, b, lo, hi - 1);
    }
  }

  lemma RatioBound(d: real, p: real)
    requires p > 0.0 && -p <= d <= p
    ensures -1.0 <= d / p <= 1.0
    ensures d / p == 1.0 <==> d == p
  {
    var q := d / p;
    assert q * p == d;
    ProductSign(q - 1.0, p);
    ProductSign(1.0 - q, p);
    ProductSign(q + 1.0, p);
    ProductSign(-1.0 - q, p);
  }

  /** The normalised correlation lies in [-1, 1] and is 1 exactly on equal windows. */
  lemma CorrelationRange(a: seq<real>, b: seq<real>, i: nat, len: nat)
    requires i + len <= |a| == |b|
    ensures -1.0 <= NormalizedCorrelation(a, b, i, len) <= 1.0
    ensures NormalizedCorrelation(a, b, i, len) == 1.0 <==> a[i..i + len] == b[i..i + len]
  {
    WindowBound(a, b, i, i + len);
    if Power(a, b, i, i + len) != 0.0 {
      RatioBound(Dot(a, b, i, i + len), Power(a, b, i, i + len));
    }
  }

  /** Dot and power of a window and its copy, `gain` times as loud. */
  lemma {:induction false} LouderCopySums(a: seq<real>, b: seq<real>, lo: nat, hi: nat, gain: real)
    requires lo <= hi <= |a| == |b| && 1.0 <= gain && forall i :: lo <= i < hi ==> b[i] == gain * a[i]
    ensures Power(a, b, lo, hi) == gain * Dot(a, b, lo, hi)
    decreases hi
  {
    if lo == hi {
    } else {
      LouderCopySums(a, b, lo, hi - 1, gain);
      LouderPair(a[hi - 1], b[hi - 1], gain);
    }
  }

  lemma LouderPair(x: real, y: real, gain: real)
    requires 1.0 <= gain && y == gain * x
    ensures PeakPower(x, y) == gain * Cross(x, y)
  {
    ProductSign(x, x);
    ProductSign(gain - 1.0, x * x);
    ProductSign(gain - 1.0, gain * (x * x));
    assert y * y == gain * (x * y);
    assert x * y == gain * (x * x);
  }

  /** A copy `gain` times as loud correlates as 1 / gain: loudness differences count against a match. */
  lemma LouderCopyCorrelation(a: seq<real>, b: seq<real>, i: nat, len: nat, gain: real)
    requires i + len <= |a| == |b| && 1.0 <= gain && forall j :: i <= j < i + len ==> b[j] == gain * a[j]
    requires Power(a, b, i, i + len) != 0.0
    ensures NormalizedCorrelation(a, b, i, len) * gain == 1.0
  {
    LouderCopySums(a, b, i, i + len, gain);
    var d, p := Dot(a, b, i, i + len), Power(a, b, i, i + len);
    QuotientTimes(d, p, gain);
  }

  lemma QuotientTimes(d: real, p: real, gain: real)
    requires p != 0.0 && p == gain * d
    ensures d / p * gain == 1.0
  {
    var q := d / p;
    assert q * p == d;
    assert d != 0.0;
    assert q * (gain * d) == (q * gain) * d;
    assert (q * gain - 1.0) * d == (q * gain) * d - d;
    ProductSign(q * gain - 1.0, d);
  }

  ghost predicate EqualWindows(a: seq<real>, b: seq<real>, i: nat, len: nat) {
    i + len <= |a| && i + len <= |b| && a[i..i + len] == b[i..i + len]
  }

  // ----- best_normalized_correlation -------------------------------------------

  /** `pos` is the first window that attains the maximum `corr` among windows starting before `n`. */
  ghost predicate FirstBest(a: seq<real>, b: seq<real>, len: nat, n: nat, pos: nat, corr: real)
    requires |a| == |b| && n + len <= |a| + 1
  {
    && pos < n
    && corr == NormalizedCorrelation(a, b, pos, len)
    && (forall i: nat :: i < n ==> NormalizedCorrelation(a, b, i, len) <= corr)
    && (forall i: nat :: i < pos ==> NormalizedCorrelation(a, b, i, len) < corr)
  }

  lemma ExtendBest(a: seq<real>, b: seq<real>, len: nat, n: nat, pos: nat, corr: real, next: real)
    requires |a| == |b| && n + len <= |a|
    requires n == 0 ==> pos == 0 && corr == -1.0
    requires n > 0 ==> FirstBest(a, b, len, n, pos, corr)
    requires next == NormalizedCorrelation(a, b, n, len)
    ensures next > corr ==> FirstBest(a, b, len, n + 1, n, next)
    ensures next <= corr ==> FirstBest(a, b, len, n + 1, pos, corr)
  {
    CorrelationRange(a, b, n, len);
  }

  /** The best value lies in [-1, 1] and is 1 exactly when some pair of windows agrees. */
  lemma BestRange(a: seq<real>, b: seq<real>, len: nat, pos: nat, corr: real)
    requires |a| == |b| && len <= |a|
    requires FirstBest(a, b, len, |a| - len + 1, pos, corr)
    ensures -1.0 <= corr <= 1.0
    ensures corr == 1.0 <==> exists i: nat :: EqualWindows(a, b, i, len)
    ensures corr == 1.0 ==> a[pos..pos + len] == b[pos..pos + len]
  {
    CorrelationRange(a, b, pos, len);
    if i: nat :| EqualWindows(a, b, i, len) {
      CorrelationRange(a, b, i, len);
    }
    assert corr == 1.0 ==> EqualWindows(a, b, pos, len);
  }

  lemma PerfectWindow(a: seq<real>, b: seq<real>, len: nat, pos: nat)
    requires |a| == |b| && pos + len <= |a|
    requires NormalizedCorrelation(a, b, pos, len) >= 1.0
    requires pos > 0 ==> exists p: nat, c: real :: c < 1.0 && FirstBest(a, b, len, pos, p, c)
    ensures FirstBest(a, b, len, |a| - len + 1, pos, 1.0)
  {
    forall k: nat | k < |a| - len + 1 ensures NormalizedCorrelation(a, b, k, len) <= 1.0 {
      CorrelationRange(a, b, k, len);
    }
  }

  /** Sliding-window search: equals the brute-force search over all windows. */
  method BestNormalizedCorrelation(a: seq<real>, b: seq<real>, len: nat)
    returns (bestPos: nat, bestCorr: real)
    requires |a| == |b| && 1 <= len <= |a|
    ensures FirstBest(a, b, len, |a| - len + 1, bestPos, bestCorr)
  {
    var corr, energy := 0.0, 0.0;
    bestPos, bestCorr := 0, -1.0;
    ghost var windows := 0;  // windows examined so far; also the start of the current partial window
    for i := 0 to |a|
      invariant windows == if i < len then 0 else i - len + 1
      invariant corr == Dot(a, b, windows, i) && energy == Power(a, b, windows, i)
      invariant windows == 0 ==> bestPos == 0 && bestCorr == -1.0
      invariant windows > 0 ==> FirstBest(a, b, len, windows, bestPos, bestCorr) && bestCorr < 1.0
    {
      var x, y := a[i], b[i];
      corr := corr + Cross(x, y);
      energy := energy + PeakPower(x, y);
      if i + 1 >= len {
        var normalizedCorr := if energy == 0.0 then 1.0 else corr / energy;
        var start := i + 1 - len;
        assert normalizedCorr == NormalizedCorrelation(a, b, windows, len);
        if normalizedCorr >= 1.0 {
          PerfectWindow(a, b, len, windows);
          return start, 1.0;
        }
        ExtendBest(a, b, len, windows, bestPos, bestCorr, normalizedCorr);
        if normalizedCorr > bestCorr {
          bestCorr, bestPos := normalizedCorr, start;
        }
        DropFirst(a, b, windows, i + 1);
        corr := corr - Cross(a[start], b[start]);
        energy := energy - PeakPower(a[start], b[start]);
        windows := windows + 1;
      }
    }
  }

  // ----- crossfade -------------------------------------------------------------

  function FadeSample(prev: real, next: real, i: nat, fadeLen: nat): real
    requires i < fadeLen
  {
    var fadeOut := 1.0 - i as real / fadeLen as real;
    prev * fadeOut + next * (1.0 - fadeOut)
  }

  /** The last `fadeLen` samples of `prev`, blended linearly into the head of `next`. */
  function Faded(prev: seq<real>, next: seq<real>, fadeLen: nat): (r: seq<real>)
    requires fadeLen <= |prev| && fadeLen <= |next|
    ensures |r| == fadeLen
  {
    seq(fadeLen, i requires 0 <= i < fadeLen => FadeSample(prev[|prev| - fadeLen + i], next[i], i, fadeLen))
  }

  /** `prev` with its last `fadeLen` samples blended linearly into the head of `next`. */
  function Crossfaded(prev: seq<real>, next: seq<real>, fadeLen: nat): (r: seq<real>)
    requires fadeLen <= |prev| && fadeLen <= |next|
    ensures |r| == |prev|
  {
    prev[..|prev| - fadeLen] + Faded(prev, next, fadeLen)
  }

  /** Each blended sample is a convex combination: between its two sources, and the first is `prev`. */
  lemma FadeIsConvex(p: real, n: real, i: nat, fadeLen: nat)
    requires i < fadeLen
    ensures p <= n ==> p <= FadeSample(p, n, i, fadeLen) <= n
    ensures n <= p ==> n <= FadeSample(p, n, i, fadeLen) <= p
    ensures i == 0 ==> FadeSample(p, n, i, fadeLen) == p
  {
    var t := i as real / fadeLen as real;
    assert 0.0 <= t <= 1.0;
    assert FadeSample(p, n, i, fadeLen) == p + (n - p) * t;
    if p <= n {
      ProductSign(n - p, t);
      ProductSign(n - p, 1.0 - t);
    } else {
      ProductSign(p - n, t);
      ProductSign(p - n, 1.0 - t);
    }
  }

  /** Linear: each sample moves 1 / fadeLen of the way further, so the last is that far from `next`. */
  lemma FadeIsLinear(p: real, n: real, i: nat, fadeLen: nat)
    requires i < fadeLen
    ensures fadeLen as real * (FadeSample(p, n, i, fadeLen) - p) == i as real * (n - p)
    ensures i + 1 < fadeLen ==>
      fadeLen as real * (FadeSample(p, n, i + 1, fadeLen) - FadeSample(p, n, i, fadeLen)) == n - p
    ensures i + 1 == fadeLen ==> fadeLen as real * (n - FadeSample(p, n, i, fadeLen)) == n - p
  {
    var f := fadeLen as real;
    FadeOffset(p, n, i as real, f);
    FadeOffset(p, n, (i + 1) as real, f);
  }

  lemma FadeOffset(p: real, n: real, i: real, f: real)
    requires 0.0 < f
    ensures var out := 1.0 - i / f; f * (p * out + n * (1.0 - out) - p) == i * (n - p)
  {
    var t := i / f;
    assert t * f == i;
    assert p * (1.0 - t) + n * (1.0 - (1.0 - t)) - p == t * (n - p);
    assert f * (t * (n - p)) == (t * f) * (n - p);
  }

  /** Fading a window into itself changes nothing. */
  lemma FadeSelf(w: seq<real>)
    ensures Crossfaded(w, w, |w|) == w
  {
    forall i | 0 <= i < |w| ensures Faded(w, w, |w|)[i] == w[i] {
      FadeIsConvex(w[i], w[i], i, |w|);
    }
  }

  /** Two successive slice writes, the second right behind the first. */
  lemma TwoParts(a: seq<real>, b: seq<real>, off: nat, o0: seq<real>, o1: seq<real>, o2: seq<real>)
    requires off + |a| + |b| <= |o0|
    requires o1 == o0[..off] + a + o0[off + |a|..]
    requires o2 == o1[..off + |a|] + b + o1[off + |a| + |b|..]
    ensures o2 == o0[..off] + (a + b) + o0[off + |a| + |b|..]
  {
  }

  /** The fade loop: out[off .. off + fadeLen) becomes the blend. */
  method FadeInto(prev: seq<real>, next: seq<real>, fadeLen: nat, out: array<real>, off: nat)
    requires fadeLen <= |prev| && fadeLen <= |next| && off + fadeLen <= out.Length
    modifies out
    ensures out[..] == old(out[..off]) + Faded(prev, next, fadeLen) + old(out[off + fadeLen..])
  {
    ghost var faded := Faded(prev, next, fadeLen);
    for i := 0 to fadeLen
      invariant out[..off] == old(out[..off]) && out[off + fadeLen..] == old(out[off + fadeLen..])
      invariant forall k :: 0 <= k < i ==> out[off + k] == faded[k]
    {
      out[off + i] := FadeSample(prev[|prev| - fadeLen + i], next[i], i, fadeLen);
    }
    assert out[off..off + fadeLen] == faded;
    assert out[..] == out[..off] + out[off..off + fadeLen] + out[off + fadeLen..];
  }

  /** Writes the crossfade into out[off .. off + |prev|) and leaves the rest of `out` alone. */
  method Crossfade(prev: seq<real>, next: seq<real>, fadeLen: nat, out: array<real>, off: nat)
    requires fadeLen <= |prev| && fadeLen <= |next| && off + |prev| <= out.Length
    modifies out
    ensures out[..] == old(out[..off]) + Crossfaded(prev, next, fadeLen) + old(out[off + |prev|..])
  {
    var fadeStart := |prev| - fadeLen;
    ghost var o0 := out[..];
    CopyInto(prev[..fadeStart], out, off);
    ghost var o1 := out[..];
    FadeInto(prev, next, fadeLen, out, off + fadeStart);
    TwoParts(prev[..fadeStart], Faded(prev, next, fadeLen), off, o0, o1, out[..]);
  }

  /** Slice copy: out[off .. off + |src|) becomes `src`, the rest is unchanged. */
  method CopyInto(src: seq<real>, out: array<real>, off: nat)
    requires off + |src| <= out.Length
    modifies out
    ensures out[..] == old(out[..off]) + src + old(out[off + |src|..])
  {
    for i := 0 to |src|
      invariant out[..off] == old(out[..off]) && out[off + |src|..] == old(out[off + |src|..])
      invariant forall k :: 0 <= k < i ==> out[off + k] == src[k]
    {
      out[off + i] := src[i];
    }
    assert out[off..off + |src|] == src;
    assert out[..] == out[..off] + out[off..off + |src|] + out[off + |src|..];
  }
}
