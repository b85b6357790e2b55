/** Preemptive expand of neteq/src/time_stretch.rs: repeats one lag to slow playback, over reals. */
module PreemptiveStretch {
  import opened Numbers
  import opened Signal
  import opened TimeStretch

  // ----- reference definitions -------------------------------------------------

  /** Largest lag considered, exclusive. */
  function MaxAdd(m: nat, ov: nat): nat
    requires ov <= m
  {
    (m - ov) / 2
  }

  /** A lag and a window start that the search may pick for an output of `m` samples. */
  ghost predicate IsLag(m: nat, ov: nat, lag: nat, pos: nat) {
    ov <= m && ov <= lag < MaxAdd(m, ov) && pos + ov <= m - 2 * lag
  }

  /** Normalised correlation between the window at `lag + pos` and the one at `pos`. */
  ghost function LagCorrelation(input: seq<real>, m: nat, ov: nat, lag: nat, pos: nat): real
    requires m <= |input| && IsLag(m, ov, lag, pos)
  {
    NormalizedCorrelation(input[lag..m - lag], input[..m - 2 * lag], pos, ov)
  }

  /** `lag` samples repeated: the seam at `lag + pos` is blended over `ov` samples. */
  ghost function Repeat(input: seq<real>, lag: nat, pos: nat, ov: nat, m: nat): seq<real>
    requires ov <= lag && pos + ov + 2 * lag <= m <= |input|
  {
    input[..lag + pos]
    + Crossfaded(input[lag + pos..lag + pos + ov], input[pos..pos + ov], ov)
    + input[pos + ov..m - lag]
  }

  /** The best lag below `n`: no smaller lag reaches `corr`, nor does an earlier window of the same lag. */
  ghost predicate BestLagBelow(input: seq<real>, m: nat, ov: nat, n: nat, lag: nat, pos: nat, corr: real)
    requires m <= |input|
  {
    && -1.0 <= corr
    && (corr == -1.0 ==> lag == 0 && pos == 0)
    && (corr > -1.0 ==> lag < n && IsLag(m, ov, lag, pos) && corr == LagCorrelation(input, m, ov, lag, pos))
    && (forall l: nat, q: nat :: l < n && IsLag(m, ov, l, q) ==> LagCorrelation(input, m, ov, l, q) <= corr)
    && (forall l: nat, q: nat :: IsLag(m, ov, l, q) && (l < lag || (l == lag && q < pos)) ==>
          LagCorrelation(input, m, ov, l, q) < corr)
  }

  lemma NextLag(input: seq<real>, m: nat, ov: nat, n: nat, lag: nat, pos: nat, corr: real, p: nat, c: real)
    requires m <= |input| && ov <= m && ov <= n < MaxAdd(m, ov)
    requires BestLagBelow(input, m, ov, n, lag, pos, corr)
    requires FirstBest(input[n..m - n], input[..m - 2 * n], ov, m - 2 * n - ov + 1, p, c)
    ensures c > corr ==> BestLagBelow(input, m, ov, n + 1, n, p, c)
    ensures c <= corr ==> BestLagBelow(input, m, ov, n + 1, lag, pos, corr)
  {
    assert IsLag(m, ov, n, p) && c == LagCorrelation(input, m, ov, n, p);
    forall q: nat | IsLag(m, ov, n, q)
      ensures LagCorrelation(input, m, ov, n, q) <= c
      ensures q < p ==> LagCorrelation(input, m, ov, n, q) < c
    {
    }
  }

  /** The search over all lags; (0, 0, -1) when there is no lag or only perfect anti-correlation. */
  method FindBestLag(input: seq<real>, m: nat, ov: nat) returns (lag: nat, pos: nat, corr: real)
    requires m <= |input| && 1 <= ov <= m && ov <= MaxAdd(m, ov)
    ensures BestLagBelow(input, m, ov, MaxAdd(m, ov), lag, pos, corr)
  {
    lag, pos, corr := 0, 0, -1.0;
    for addLen := ov to MaxAdd(m, ov)
      invariant BestLagBelow(input, m, ov, addLen, lag, pos, corr)
    {
      var correlationLen := m - addLen * 2;
      var p, c := BestNormalizedCorrelation(input[addLen..correlationLen + addLen], input[..correlationLen], ov);
      NextLag(input, m, ov, addLen, lag, pos, corr, p, c);
      if c > corr {
        corr, pos, lag := c, p, addLen;
      }
    }
  }

  /** Everything `PreemptiveExpand.Process` promises once the output is long enough to search. */
  ghost predicate Expanded(input: seq<real>, m: nat, ov: nat, threshold: real, r: TimeStretchResult, out: seq<real>,
                           used: nat, threshold': real, lag: nat, pos: nat, corr: real)
    requires ov <= m <= |input| && ov <= MaxAdd(m, ov)
  {
    && BestLagBelow(input, m, ov, MaxAdd(m, ov), lag, pos, corr)
    && (r.NoStretch? <==> corr < threshold)
    && (if r.NoStretch? then out == input[..m] && used == m && threshold' == threshold * 0.98
        else
          && IsLag(m, ov, lag, pos)
          && out == Repeat(input, lag, pos, ov, m) && used == m - lag
          && threshold' == MaxReal(threshold, corr * 0.95))
  }

  /** The output repeats a lag exactly when some window pair reaches the correlation threshold. */
  lemma StretchesIff(input: seq<real>, m: nat, ov: nat, threshold: real, r: TimeStretchResult, out: seq<real>,
                     used: nat, threshold': real, lag: nat, pos: nat, corr: real)
    requires ov <= m <= |input| && ov <= MaxAdd(m, ov) && 0.0 < threshold
    requires Expanded(input, m, ov, threshold, r, out, used, threshold', lag, pos, corr)
    ensures !r.NoStretch? <==>
      exists l: nat, q: nat :: IsLag(m, ov, l, q) && LagCorrelation(input, m, ov, l, q) >= threshold
    ensures |out| == m && (if r.NoStretch? then out == input[..m] && used == m else ov <= lag && used + lag == m)
  {
    if !r.NoStretch? {
      assert IsLag(m, ov, lag, pos) && LagCorrelation(input, m, ov, lag, pos) >= threshold;
    }
  }

  lemma SubSlice(x: seq<real>, lo: nat, hi: nat, i: nat, j: nat)
    requires lo <= hi <= |x| && i <= j <= hi - lo
    ensures x[lo..hi][i..j] == x[lo + i..lo + j]
  {
    var w := x[lo..hi];
    forall k | 0 <= k < j - i ensures w[i..j][k] == x[lo + i..lo + j][k] {
      assert w[i + k] == x[lo + i + k];
    }
  }

  lemma PerfectLagWindows(input: seq<real>, m: nat, ov: nat, lag: nat, pos: nat)
    requires m <= |input| && IsLag(m, ov, lag, pos)
    ensures LagCorrelation(input, m, ov, lag, pos) == 1.0 <==>
            input[lag + pos..lag + pos + ov] == input[pos..pos + ov]
  {
    CorrelationRange(input[lag..m - lag], input[..m - 2 * lag], pos, ov);
    SubSlice(input, lag, m - lag, pos, pos + ov);
    SubSlice(input, 0, m - 2 * lag, pos, pos + ov);
  }

  /** A perfect correlation makes the crossfade the identity: the output is an exact repeat splice. */
  lemma PerfectLagIsExactRepeat(input: seq<real>, m: nat, ov: nat, lag: nat, pos: nat)
    requires m <= |input| && IsLag(m, ov, lag, pos)
    requires LagCorrelation(input, m, ov, lag, pos) == 1.0
    ensures input[lag + pos..lag + pos + ov] == input[pos..pos + ov]
    ensures Repeat(input, lag, pos, ov, m) == input[..lag + pos] + input[pos..m - lag]
  {
    PerfectLagWindows(input, m, ov, lag, pos);
    FadeSelf(input[pos..pos + ov]);
    JoinSlices(input[..lag + pos], input, pos, pos + ov, m - lag);
  }

  lemma JoinSlices(head: seq<real>, x: seq<real>, a: nat, b: nat, c: nat)
    requires a <= b <= c <= |x|
    ensures head + x[a..b] + x[b..c] == head + x[a..c]
  {
    assert x[a..b] + x[b..c] == x[a..c];
  }

  /** A repeat sample by sample: the input up to the seam, the input `lag` samples earlier after it, a blend between. */
  lemma RepeatSamples(input: seq<real>, lag: nat, pos: nat, ov: nat, m: nat, i: nat)
    requires ov <= lag && pos + ov + 2 * lag <= m <= |input| && i < m
    ensures |Repeat(input, lag, pos, ov, m)| == m
    ensures i < lag + pos ==> Repeat(input, lag, pos, ov, m)[i] == input[i]
    ensures lag + pos + ov <= i ==> Repeat(input, lag, pos, ov, m)[i] == input[i - lag]
    ensures lag + pos <= i < lag + pos + ov ==>
      Repeat(input, lag, pos, ov, m)[i] == FadeSample(input[i], input[i - lag], i - (lag + pos), ov)
  {
  }

  /** The lags searched: from one overlap to just under half of the output beyond one, with room for the window. */
  lemma LagsAre(m: nat, ov: nat, lag: nat, pos: nat)
    ensures IsLag(m, ov, lag, pos) <==> ov <= lag && 2 * lag + ov + 2 <= m && pos + ov + 2 * lag <= m
  {
  }

  // ----- the threshold over calls -------------------------------------------------------------

  /** One call that searched: its input, what it returned, and the best lag it found. */
  datatype Call = Call(input: seq<real>, m: nat, ov: nat, r: TimeStretchResult, out: seq<real>, used: nat,
                       lag: nat, pos: nat, corr: real)

  ghost predicate IsCall(c: Call, threshold: real, threshold': real) {
    && c.ov <= c.m <= |c.input| && c.ov <= MaxAdd(c.m, c.ov)
    && Expanded(c.input, c.m, c.ov, threshold, c.r, c.out, c.used, threshold', c.lag, c.pos, c.corr)
  }

  /** `ts` are the thresholds before each call and after the last. */
  ghost predicate IsThresholdRun(ts: seq<real>, calls: seq<Call>) {
    |ts| == |calls| + 1 && forall i :: 0 <= i < |calls| ==> IsCall(calls[i], ts[i], ts[i + 1])
  }

  /** A miss lowers the threshold by two percent; a hit raises it to 95 percent of the correlation, if that is more. */
  lemma ThresholdStep(c: Call, threshold: real, threshold': real)
    requires IsCall(c, threshold, threshold')
    ensures c.r.NoStretch? <==> c.corr < threshold
    ensures c.corr < threshold ==> threshold' == 0.98 * threshold
    ensures c.corr >= threshold ==>
      threshold' >= threshold && threshold' >= 0.95 * c.corr && (threshold' == threshold || threshold' == 0.95 * c.corr)
  {
  }

  /** Misses lower it by two percent each, so any positive correlation is accepted in the end. */
  lemma {:induction false} MissesLowerTheThreshold(ts: seq<real>, calls: seq<Call>, n: nat)
    requires IsThresholdRun(ts, calls) && n <= |calls| && forall i :: 0 <= i < n ==> calls[i].r.NoStretch?
    ensures ts[n] == Shrunk(0.98, ts[0], n)
  {
    if n == 0 {
    } else {
      MissesLowerTheThreshold(ts, calls, n - 1);
      assert IsCall(calls[n - 1], ts[n - 1], ts[(n - 1) + 1]);
      ThresholdStep(calls[n - 1], ts[n - 1], ts[n]);
    }
  }

  /** Run invariant of the correlation threshold: it stays in (0, 0.99], so it is never reached by -1. */
  ghost predicate ThresholdOk(threshold: real) { 0.0 < threshold <= 0.99 }

  class PreemptiveExpand {
    var usedInputSamples: nat
    const overlapLength: OverlapSize
    var corrThreshold: real

    constructor (sampleRate: nat)
      ensures usedInputSamples == 0 && overlapLength == OverlapLength(sampleRate)
      ensures corrThreshold == 0.99 && ThresholdOk(corrThreshold)
    {
      usedInputSamples, overlapLength, corrThreshold := 0, OverlapLength(sampleRate), 0.99;
    }

    method WriteRepeat(input: seq<real>, lag: nat, pos: nat, output: array<real>)
      requires overlapLength <= lag && pos + overlapLength + 2 * lag <= output.Length <= |input|
      modifies this`usedInputSamples, output
      ensures output[..] == Repeat(input, lag, pos, overlapLength, output.Length)
      ensures usedInputSamples == output.Length - lag
    {
      var used, seam := output.Length - lag, lag + pos;
      WriteSplice(input[..seam], input[seam..seam + overlapLength], input[pos..pos + overlapLength],
                  input[pos + overlapLength..used], output);
      usedInputSamples := used;
    }

    method Process(input: seq<real>, output: array<real>)
      returns (r: TimeStretchResult, ghost lag: nat, ghost pos: nat, ghost corr: real)
      requires |input| < output.Length || overlapLength <= output.Length
      requires ThresholdOk(corrThreshold)
      modifies this, output
      ensures ThresholdOk(corrThreshold)
      ensures |input| < output.Length ==>
        r.NoStretch? && output[..] == input + old(output[|input|..]) && usedInputSamples == |input|
        && corrThreshold == old(corrThreshold)
      ensures output.Length <= |input| && MaxAdd(output.Length, overlapLength) < overlapLength ==>
        r.NoStretch? && output[..] == input[..output.Length] && usedInputSamples == output.Length
        && corrThreshold == old(corrThreshold)
      ensures output.Length <= |input| && overlapLength <= MaxAdd(output.Length, overlapLength) ==>
        Expanded(input, output.Length, overlapLength, old(corrThreshold), r, output[..], usedInputSamples,
                 corrThreshold, lag, pos, corr)
      ensures output.Length <= |input| && !r.NoStretch? ==>
        r == if MeanEnergy(input, 0, |input|) < 0.01 then SuccessLowEnergy else Success
    {
      r, lag, pos, corr := NoStretch, 0, 0, -1.0;
      var m := output.Length;
      if |input| < m {
        CopyInto(input, output, 0);
        usedInputSamples := |input|;
        return;
      }
      var energy := CalculateEnergy(input, 0, |input|);
      if MaxAdd(m, overlapLength) < overlapLength {
        CopyInto(input[..m], output, 0);
        usedInputSamples := m;
        return;
      }
      var bestLag, bestPos, bestCorr := FindBestLag(input, m, overlapLength);
      lag, pos, corr := bestLag, bestPos, bestCorr;
      if bestCorr < corrThreshold {
        corrThreshold := corrThreshold * 0.98;
        CopyInto(input[..m], output, 0);
        usedInputSamples := m;
      } else {
        ThresholdStaysLow(input, m, overlapLength, bestLag, bestPos);
        corrThreshold := MaxReal(corrThreshold, bestCorr * 0.95);
        WriteRepeat(input, bestLag, bestPos, output);
        r := if energy < 0.01 then SuccessLowEnergy else Success;
      }
    }
  }

  lemma ThresholdStaysLow(input: seq<real>, m: nat, ov: nat, lag: nat, pos: nat)
    requires m <= |input| && IsLag(m, ov, lag, pos)
    ensures LagCorrelation(input, m, ov, lag, pos) <= 1.0
  {
    CorrelationRange(input[lag..m - lag], input[..m - 2 * lag], pos, ov);
  }
}
