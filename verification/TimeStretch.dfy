/** Accelerate of neteq/src/time_stretch.rs: cuts samples out to speed playback up, over reals. */
module TimeStretch {
  import opened Numbers
  import opened Signal
  import opened LowEnergy

  datatype TimeStretchResult = Success | SuccessLowEnergy | NoStretch | Error

  type OverlapSize = n: nat | 32 <= n witness 32

  /** 3 ms of audio, but at least 32 samples. */
  function OverlapLength(sampleRate: nat): OverlapSize { Max(sampleRate * 3 / 1000, 32) }

  /** 3 ms of whole samples, from 10667 Hz on; 32 samples below. */
  lemma OverlapIsThreeMilliseconds(sampleRate: nat)
    ensures sampleRate >= 10667 ==> OverlapLength(sampleRate) * 1000 <= 3 * sampleRate < (OverlapLength(sampleRate) + 1) * 1000
    ensures sampleRate < 10667 ==> OverlapLength(sampleRate) == 32
  {
  }

  function MeanEnergy(x: seq<real>, lo: nat, hi: nat): real
    requires lo < hi <= |x|
  {
    Energy(x, lo, hi) / (hi - lo) as real
  }

  /** The mean times the number of samples is the energy. */
  lemma MeanTimesLength(x: seq<real>, lo: nat, hi: nat)
    requires lo < hi <= |x|
    ensures MeanEnergy(x, lo, hi) * (hi - lo) as real == Energy(x, lo, hi)
  {
  }

  method CalculateEnergy(x: seq<real>, lo: nat, hi: nat) returns (e: real)
    requires lo < hi <= |x|
    ensures e == MeanEnergy(x, lo, hi)
  {
    var sum := 0.0;
    for k := lo to hi
      invariant sum == Energy(x, lo, k)
    {
      sum := sum + x[k] * x[k];
    }
    e := sum / (hi - lo) as real;
  }

  /** Three successive slice copies that tile the output leave their concatenation. */
  lemma ThreeParts(a: seq<real>, b: seq<real>, c: seq<real>, o1: seq<real>, o2: seq<real>, o3: seq<real>)
    requires |o1| == |o2| == |o3| == |a| + |b| + |c|
    requires o1[..|a|] == a
    requires o2 == o1[..|a|] + b + o1[|a| + |b|..]
    requires o3 == o2[..|a| + |b|] + c + []
    ensures o3 == a + b + c
  {
  }

  /** Fills the output with a head, one crossfade of `prev` into `next`, and a tail. */
  method WriteSplice(head: seq<real>, prev: seq<real>, next: seq<real>, tail: seq<real>, output: array<real>)
    requires |prev| == |next| && |head| + |prev| + |tail| == output.Length
    modifies output
    ensures output[..] == head + Crossfaded(prev, next, |prev|) + tail
  {
    CopyInto(head, output, 0);
    ghost var o1 := output[..];
    Crossfade(prev, next, |prev|, output, |head|);
    ghost var o2 := output[..];
    CopyInto(tail, output, |head| + |prev|);
    ThreeParts(head, Crossfaded(prev, next, |prev|), tail, o1, o2, output[..]);
  }

  // ===== Accelerate ===============================================================

  /** Input and output sizes for which accelerate never indexes out of range. */
  ghost predicate AccelerateInRange(n: nat, m: nat, ov: nat) {
    n <= m || m < 2 * ov || ov <= n - m
  }

  /** One and a half times the output is always enough input. */
  lemma HalfMoreInputIsInRange(n: nat, m: nat, ov: nat)
    requires 2 * n >= 3 * m
    ensures AccelerateInRange(n, m, ov)
  {
  }

  /** Upper limit on the samples to remove, given the limit set by the acceleration factor. */
  function MaxSamplesToRemove(n: nat, m: nat, ov: nat, factorLimit: nat): nat
    requires m <= n
  {
    Max(Min(Min(factorLimit, m / 2), n - m), ov)
  }

  /** Low-energy removal: acceleration factor 0.4 in fast mode, 0.2 in normal mode. */
  function MaxLowEnergy(n: nat, m: nat, ov: nat, fast: bool): nat
    requires m <= n
  {
    MaxSamplesToRemove(n, m, ov, if fast then 2 * m / 5 else m / 5)
  }

  /** High-energy removal, fast mode only: acceleration factor 0.25. */
  function MaxHighEnergy(n: nat, m: nat, ov: nat): nat
    requires m <= n
  {
    MaxSamplesToRemove(n, m, ov, m / 4)
  }

  /** The validator: after the removal the region start still fits the output. */
  function FitsOutput(m: nat, ov: nat, maxRemove: nat): (nat, nat) -> bool {
    (i: nat, len: nat) => i + Min(SaturatingSub(len, ov), maxRemove) <= m
  }

  lemma FitsOutputIsStartClosed(m: nat, ov: nat, maxRemove: nat)
    ensures StartClosed(FitsOutput(m, ov, maxRemove))
  {
  }

  /** Samples taken out of a low-energy region of length `len`; 0 when fewer than one overlap. */
  function RemovalLength(len: nat, ov: nat, maxRemove: nat): nat {
    var s := Min(SaturatingSub(len, ov), maxRemove);
    if s < ov then 0 else s
  }

  /** The energy threshold falls when regions are plentiful and rises when they are scarce. */
  function AdaptThreshold(threshold: real, len: nat, maxRemove: nat): real {
    if len > maxRemove then threshold * 0.995
    else if len < maxRemove / 2 then threshold * 1.002
    else threshold
  }

  /** The part of the input that the search for a removal looks at. */
  ghost function Usable(input: seq<real>, m: nat, ov: nat, fast: bool): seq<real>
    requires m < |input| && 2 * ov <= m && ov <= |input| - m
  {
    input[..m + MaxLowEnergy(|input|, m, ov, fast)]
  }

  /** `s` samples cut out at `p`, the seam blended over `ov` samples. */
  ghost function Cut(input: seq<real>, p: nat, s: nat, ov: nat, m: nat): seq<real>
    requires p + ov <= m && m + s <= |input| && ov <= s
  {
    input[..p] + Crossfaded(input[p..p + ov], input[p + s..p + s + ov], ov) + input[p + s + ov..m + s]
  }

  /** Scan positions of the high-energy removal: from `pos` below `end` in strides of `step`. */
  ghost function ScanPositions(pos: nat, end: nat, step: nat): (r: seq<nat>)
    requires 0 < step
    ensures forall k :: 0 <= k < |r| ==> pos <= r[k] < end
    decreases end - pos
  {
    if pos < end then [pos] + ScanPositions(pos + step, end, step) else []
  }

  const F32_MAX: real := 340282346638528859811704183484516925440.0

  /** Energy of the `removal` samples at each scan position. */
  ghost function ScanEnergies(x: seq<real>, removal: nat, ps: seq<nat>): (es: seq<real>)
    requires 0 < removal && forall k :: 0 <= k < |ps| ==> ps[k] + removal <= |x|
    ensures |es| == |ps|
  {
    seq(|ps|, k requires 0 <= k < |ps| => MeanEnergy(x, ps[k], ps[k] + removal))
  }

  /** `k` is the index of the first least energy, and that energy is below F32_MAX. */
  ghost predicate QuietestAt(es: seq<real>, k: int) {
    && 0 <= k < |es| && es[k] < F32_MAX
    && (forall j :: 0 <= j < |es| ==> es[k] <= es[j])
    && (forall j :: 0 <= j < k ==> es[k] < es[j])
  }

  /** The first quietest scan position, or the default when every position is too loud to count. */
  ghost predicate FirstQuietest(es: seq<real>, ps: seq<nat>, default: nat, best: nat)
    requires |es| == |ps|
  {
    || (exists k :: QuietestAt(es, k) && best == ps[k])
    || (best == default && forall k :: 0 <= k < |es| ==> F32_MAX <= es[k])
  }

  /** Loop state of the scan: the least energy seen and where it was seen (-1: nowhere yet). */
  ghost predicate QuietSoFar(es: seq<real>, k: int, lowest: real) {
    if k == -1 then lowest == F32_MAX && forall j :: 0 <= j < |es| ==> F32_MAX <= es[j]
    else QuietestAt(es, k) && lowest == es[k]
  }

  lemma QuietDone(es: seq<real>, ps: seq<nat>, k: int, lowest: real, default: nat)
    requires |es| == |ps| && QuietSoFar(es, k, lowest)
    ensures FirstQuietest(es, ps, default, if k == -1 then default else ps[k])
  {
  }

  lemma ScanStep(x: seq<real>, removal: nat, seen: seq<nat>, pos: nat, end: nat, step: nat)
    requires 0 < step && pos < end && 0 < removal && end + removal <= |x|
    requires forall k :: 0 <= k < |seen| ==> seen[k] + removal <= |x|
    ensures seen + ScanPositions(pos, end, step) == (seen + [pos]) + ScanPositions(pos + step, end, step)
    ensures forall k :: 0 <= k < |seen + [pos]| ==> (seen + [pos])[k] + removal <= |x|
    ensures ScanEnergies(x, removal, seen + [pos]) == ScanEnergies(x, removal, seen) + [MeanEnergy(x, pos, pos + removal)]
  {
  }

  /** The stepping loop over the scan positions. */
  method ScanForQuietest(input: seq<real>, removalLength: nat, start: nat, end: nat, step: nat, default: nat)
    returns (best: nat, ghost at: int, ghost lowest: real)
    requires 0 < step && 0 < removalLength && end + removalLength <= |input|
    ensures var ps := ScanPositions(start, end, step);
      && QuietSoFar(ScanEnergies(input, removalLength, ps), at, lowest)
      && best == if at == -1 then default else ps[at]
  {
    best := default;
    var lowestEnergy := F32_MAX;
    var pos := start;
    ghost var all := ScanPositions(start, end, step);
    ghost var seen: seq<nat>, energies: seq<real> := [], [];
    at := -1;
    while pos < end
      invariant all == seen + ScanPositions(pos, end, step)
      invariant forall k :: 0 <= k < |seen| ==> seen[k] + removalLength <= |input|
      invariant energies == ScanEnergies(input, removalLength, seen)
      invariant QuietSoFar(energies, at, lowestEnergy)
      invariant best == if at == -1 then default else seen[at]
      decreases end - pos
    {
      var endPos := Min(pos + removalLength, |input|);
      var regionEnergy := CalculateEnergy(input, pos, endPos);
      ScanStep(input, removalLength, seen, pos, end, step);
      seen, energies := seen + [pos], energies + [regionEnergy];
      if regionEnergy < lowestEnergy {
        lowestEnergy, best, at := regionEnergy, pos, |seen| - 1;
      }
      pos := pos + step;
    }
    assert seen == all;
    lowest := lowestEnergy;
  }

  method FindBestRemovalPoint(input: seq<real>, removalLength: nat, ov: nat) returns (best: nat)
    requires 2 <= ov <= removalLength && removalLength + 2 * ov <= |input|
    ensures var ps := ScanPositions(ov, |input| - removalLength - ov, ov / 2);
      FirstQuietest(ScanEnergies(input, removalLength, ps), ps, |input| / 3, best)
  {
    var searchEnd := |input| - removalLength - ov;
    ghost var at, lowest;
    best, at, lowest := ScanForQuietest(input, removalLength, ov, searchEnd, ov / 2, |input| / 3);
    ghost var ps := ScanPositions(ov, searchEnd, ov / 2);
    QuietDone(ScanEnergies(input, removalLength, ps), ps, at, lowest, |input| / 3);
  }

  /** The removal point that the energy scan of fast mode picks for `s` samples. */
  ghost predicate QuietestRemoval(input: seq<real>, m: nat, s: nat, ov: nat, p: nat)
    requires 2 <= ov <= s && 2 * ov <= m && m + s <= |input|
  {
    var ps := ScanPositions(ov, m - ov, ov / 2);
    FirstQuietest(ScanEnergies(input[..m + s], s, ps), ps, (m + s) / 3, p)
  }

  ghost predicate IsTooLoud(x: seq<real>, lo: nat, len: nat) {
    0 < len && lo + len <= |x| && MeanEnergy(x, lo, lo + len) >= F32_MAX
  }

  /** If every stretch is too loud to count, the removal starts a third into the input. */
  lemma LoudInputIsCutAtAThird(input: seq<real>, m: nat, s: nat, ov: nat, p: nat, usable: seq<real>)
    requires 2 <= ov <= s && 2 * ov <= m && m + s <= |input| && QuietestRemoval(input, m, s, ov, p)
    requires usable == input[..m + s] && forall lo: nat :: lo <= m ==> IsTooLoud(usable, lo, s)
    ensures 3 * p <= m + s < 3 * p + 3
  {
    var ps := ScanPositions(ov, m - ov, ov / 2);
    var es := ScanEnergies(usable, s, ps);
    forall k | 0 <= k < |es| ensures es[k] >= F32_MAX {
      assert IsTooLoud(usable, ps[k], s);
    }
  }

  /** What is removed, and where: `(p, s)` from the longest low region, or from the energy scan. */
  ghost predicate RemovalChosen(input: seq<real>, m: nat, ov: nat, fast: bool, regionStart: nat, regionLen: nat,
                                r: TimeStretchResult, p: nat, s: nat)
    requires m < |input| && 2 <= ov && 2 * ov <= m && ov <= |input| - m
  {
    var high := MaxHighEnergy(|input|, m, ov);
    var low := RemovalLength(regionLen, ov, MaxLowEnergy(|input|, m, ov, fast));
    && r == (if fast then if low < high then Success else SuccessLowEnergy
             else if low == 0 then NoStretch else SuccessLowEnergy)
    && (!r.NoStretch? ==> ov <= s <= m / 2 && p + ov <= m && m + s <= |input|)
    && (r.SuccessLowEnergy? ==> p == regionStart && s == low && s + ov <= regionLen)
    && (r.Success? ==> s == high)
    && (r.Success? ==> QuietestRemoval(input, m, s, ov, p))
  }

  lemma LowRemovalChosen(input: seq<real>, m: nat, ov: nat, fast: bool, threshold: real, regionStart: nat, regionLen: nat)
    requires m < |input| && 2 <= ov && 2 * ov <= m && ov <= |input| - m
    requires IsLongest(Usable(input, m, ov, fast), threshold,
                       FitsOutput(m, ov, MaxLowEnergy(|input|, m, ov, fast)), regionStart, regionLen)
    ensures var s := RemovalLength(regionLen, ov, MaxLowEnergy(|input|, m, ov, fast));
      && (!fast && s == 0 ==> RemovalChosen(input, m, ov, fast, regionStart, regionLen, NoStretch, 0, 0))
      && ((if fast then MaxHighEnergy(|input|, m, ov) <= s else s != 0) ==>
            RemovalChosen(input, m, ov, fast, regionStart, regionLen, SuccessLowEnergy, regionStart, s))
  {
  }

  lemma HighRemovalFits(n: nat, m: nat, ov: nat)
    requires m < n && 2 <= ov && 2 * ov <= m && ov <= n - m
    ensures ov <= MaxHighEnergy(n, m, ov) <= m / 2 && m + MaxHighEnergy(n, m, ov) <= n
  {
  }

  lemma QuietestIsInRange(input: seq<real>, m: nat, s: nat, ov: nat, p: nat)
    requires 2 <= ov <= s <= m / 2 && m + s <= |input|
    requires QuietestRemoval(input, m, s, ov, p)
    ensures p + ov <= m
  {
  }

  /** Fast mode without a long enough low-energy region: the energy scan picks the removal. */
  method HighEnergyRemoval(input: seq<real>, m: nat, ov: nat, ghost regionStart: nat, ghost regionLen: nat)
    returns (p: nat, s: nat)
    requires m < |input| && 2 <= ov && 2 * ov <= m && ov <= |input| - m
    requires RemovalLength(regionLen, ov, MaxLowEnergy(|input|, m, ov, true)) < MaxHighEnergy(|input|, m, ov)
    ensures RemovalChosen(input, m, ov, true, regionStart, regionLen, Success, p, s)
  {
    s := MaxHighEnergy(|input|, m, ov);
    HighRemovalFits(|input|, m, ov);
    p := FindBestRemovalPoint(input[..m + s], s, ov);
    assert QuietestRemoval(input, m, s, ov, p);
    QuietestIsInRange(input, m, s, ov, p);
  }

  /** Everything `Accelerate.Process` promises when it looks for a removal. */
  ghost predicate Accelerated(input: seq<real>, m: nat, ov: nat, fast: bool, threshold: real,
                              r: TimeStretchResult, out: seq<real>, used: nat, threshold': real,
                              p: nat, s: nat, regionStart: nat, regionLen: nat)
    requires m < |input| && 2 <= ov && 2 * ov <= m && ov <= |input| - m
  {
    var maxRemove := MaxLowEnergy(|input|, m, ov, fast);
    && IsLongest(Usable(input, m, ov, fast), threshold, FitsOutput(m, ov, maxRemove), regionStart, regionLen)
    && threshold' == AdaptThreshold(threshold, regionLen, maxRemove)
    && RemovalChosen(input, m, ov, fast, regionStart, regionLen, r, p, s)
    && (if r.NoStretch? then out == input[..m] && used == m
        else out == Cut(input, p, s, ov, m) && used == m + s)
  }

  /** In normal mode the input is cut exactly when a low region of two overlaps fits the output. */
  lemma NormalModeCutsIff(input: seq<real>, m: nat, ov: nat, threshold: real,
                          r: TimeStretchResult, out: seq<real>, used: nat, threshold': real,
                          p: nat, s: nat, regionStart: nat, regionLen: nat)
    requires m < |input| && 2 <= ov && 2 * ov <= m && ov <= |input| - m
    requires Accelerated(input, m, ov, false, threshold, r, out, used, threshold', p, s, regionStart, regionLen)
    ensures var fits := FitsOutput(m, ov, MaxLowEnergy(|input|, m, ov, false));
      r.SuccessLowEnergy? <==>
      exists i: nat, len: nat :: len >= 2 * ov && Candidate(Usable(input, m, ov, false), threshold, fits, i, len)
    ensures |out| == m
  {
    var maxRemove := MaxLowEnergy(|input|, m, ov, false);
    var fits := FitsOutput(m, ov, maxRemove);
    if r.SuccessLowEnergy? {
      assert Candidate(Usable(input, m, ov, false), threshold, fits, regionStart, regionLen);
    }
    if i: nat, len: nat :| len >= 2 * ov && Candidate(Usable(input, m, ov, false), threshold, fits, i, len) {
      assert NotBetter(i, len, regionStart, regionLen);
    }
  }

  /** A cut sample by sample: the input up to `p`, the input `s` samples later from the end of the seam on, a blend between. */
  lemma CutSamples(input: seq<real>, p: nat, s: nat, ov: nat, m: nat, i: nat)
    requires p + ov <= m && m + s <= |input| && ov <= s && i < m
    ensures |Cut(input, p, s, ov, m)| == m
    ensures i < p ==> Cut(input, p, s, ov, m)[i] == input[i]
    ensures p + ov <= i ==> Cut(input, p, s, ov, m)[i] == input[i + s]
    ensures p <= i < p + ov ==> Cut(input, p, s, ov, m)[i] == FadeSample(input[i], input[i + s], i - p, ov)
  {
  }

  /** When the audio repeats after `s` samples the seam vanishes: exactly those samples are gone. */
  lemma PeriodicCutIsExact(input: seq<real>, p: nat, s: nat, ov: nat, m: nat)
    requires p + ov <= m && m + s <= |input| && ov <= s && input[p..p + ov] == input[p + s..p + s + ov]
    ensures Cut(input, p, s, ov, m) == input[..p] + input[p + s..m + s]
  {
    FadeSelf(input[p + s..p + s + ov]);
    assert input[p + s..p + s + ov] + input[p + s + ov..m + s] == input[p + s..m + s];
  }

  lemma {:induction false} SilenceHasNoEnergy(x: seq<real>, lo: nat, hi: nat)
    requires lo <= hi <= |x| && forall i :: 0 <= i < |x| ==> x[i] == 0.0
    ensures Energy(x, lo, hi) == 0.0
    decreases hi
  {
    if lo == hi {
    } else {
      SilenceHasNoEnergy(x, lo, hi - 1);
    }
  }

  /** In silence the longest region is everything, from the start. */
  lemma SilenceIsOneRegion(x: seq<real>, threshold: real, m: nat, ov: nat, maxRemove: nat, i: nat, len: nat)
    requires |x| == m + maxRemove && maxRemove <= m && 0 < |x| && 0.0 <= threshold && forall k :: 0 <= k < |x| ==> x[k] == 0.0
    requires IsLongest(x, threshold, FitsOutput(m, ov, maxRemove), i, len)
    ensures i == 0 && len == |x|
  {
    SilenceHasNoEnergy(x, 0, |x|);
    ProductSign(threshold, |x| as real);
    assert Candidate(x, threshold, FitsOutput(m, ov, maxRemove), 0, |x|);
    assert NotBetter(0, |x|, i, len);
  }

  /** What silence loses: a fifth of the output, two fifths in fast mode, within half the output and the spare input, an overlap at least. */
  lemma SilentInputIsCut(input: seq<real>, m: nat, ov: nat, fast: bool, threshold: real,
                         r: TimeStretchResult, out: seq<real>, used: nat, threshold': real,
                         p: nat, s: nat, regionStart: nat, regionLen: nat)
    requires m < |input| && 2 <= ov && 2 * ov <= m && ov <= |input| - m && 0.0 <= threshold
    requires forall k :: 0 <= k < |input| ==> input[k] == 0.0
    requires Accelerated(input, m, ov, fast, threshold, r, out, used, threshold', p, s, regionStart, regionLen)
    ensures r.SuccessLowEnergy? && p == 0 && used == m + s
    ensures var share := if fast then 2 * m / 5 else m / 5;
      s == if share < ov || |input| - m < ov then ov else if share <= |input| - m then share else |input| - m
  {
    var maxRemove := MaxLowEnergy(|input|, m, ov, fast);
    SilenceIsOneRegion(Usable(input, m, ov, fast), threshold, m, ov, maxRemove, regionStart, regionLen);
  }

  /** Fast mode always cuts: a quarter of the output, within the spare input, an overlap at least - or more if it is quiet. */
  lemma FastModeAlwaysCuts(input: seq<real>, m: nat, ov: nat, threshold: real,
                           r: TimeStretchResult, out: seq<real>, used: nat, threshold': real,
                           p: nat, s: nat, regionStart: nat, regionLen: nat)
    requires m < |input| && 2 <= ov && 2 * ov <= m && ov <= |input| - m
    requires Accelerated(input, m, ov, true, threshold, r, out, used, threshold', p, s, regionStart, regionLen)
    ensures !r.NoStretch? && used == m + s && s >= ov
    ensures s >= m / 4 || s >= |input| - m
    ensures r.Success? ==> s == ov || s == m / 4 || s == |input| - m
  {
  }

  /** The threshold falls by half a percent when the longest region exceeds the limit, rises by a fifth of one when it is under half. */
  lemma ThresholdAdapts(threshold: real, len: nat, maxRemove: nat)
    requires 0.0 < threshold
    ensures len > maxRemove ==> AdaptThreshold(threshold, len, maxRemove) == threshold - threshold / 200.0
    ensures len < maxRemove / 2 ==> AdaptThreshold(threshold, len, maxRemove) == threshold + threshold / 500.0
    ensures maxRemove / 2 <= len <= maxRemove ==> AdaptThreshold(threshold, len, maxRemove) == threshold
  {
  }

  /** The scan visits every half overlap from one overlap on. */
  lemma {:induction false} ScanVisits(pos: nat, end: nat, step: nat, k: nat)
    requires 0 < step
    ensures k < |ScanPositions(pos, end, step)| <==> pos + k * step < end
    ensures k < |ScanPositions(pos, end, step)| ==> ScanPositions(pos, end, step)[k] == pos + k * step
    decreases k
  {
    if k == 0 {
    } else {
      assert k * step == (k - 1) * step + step;
      MulLessEq(step, 0, k - 1);
      if pos < end {
        ScanVisits(pos + step, end, step, k - 1);
      }
    }
  }

  class Accelerate {
    var usedInputSamples: nat
    const overlapLength: OverlapSize
    var lowEnergyThreshold: real

    constructor (sampleRate: nat)
      ensures usedInputSamples == 0 && overlapLength == OverlapLength(sampleRate)
      ensures lowEnergyThreshold == 0.0001
    {
      usedInputSamples, overlapLength, lowEnergyThreshold := 0, OverlapLength(sampleRate), 0.0001;
    }

    /** Looks for the longest low-energy region and turns it into a removal. */
    method FindLowEnergyToRemove(input: seq<real>, m: nat, maxRemove: nat)
      returns (pos: nat, s: nat, ghost regionStart: nat, ghost regionLen: nat)
      requires m + maxRemove <= |input|
      modifies this`lowEnergyThreshold
      ensures IsLongest(input[..m + maxRemove], old(lowEnergyThreshold),
                        FitsOutput(m, overlapLength, maxRemove), regionStart, regionLen)
      ensures lowEnergyThreshold == AdaptThreshold(old(lowEnergyThreshold), regionLen, maxRemove)
      ensures s == RemovalLength(regionLen, overlapLength, maxRemove)
      ensures pos == if s < overlapLength then 0 else regionStart
    {
      var usable := input[..m + maxRemove];
      var validate := FitsOutput(m, overlapLength, maxRemove);
      FitsOutputIsStartClosed(m, overlapLength, maxRemove);
      var bestPos, bestLen := LongestLowEnergyRegion(usable, lowEnergyThreshold, validate);
      regionStart, regionLen := bestPos, bestLen;
      if bestLen > maxRemove {
        lowEnergyThreshold := lowEnergyThreshold * 0.995;
      } else if bestLen < maxRemove / 2 {
        lowEnergyThreshold := lowEnergyThreshold * 1.002;
      }
      s := Min(SaturatingSub(bestLen, overlapLength), maxRemove);
      if s < overlapLength {
        return 0, 0, bestPos, bestLen;
      }
      pos := bestPos;
    }

    /** Writes the input without the `s` samples at `p`. */
    method WriteCut(input: seq<real>, p: nat, s: nat, output: array<real>)
      requires p + overlapLength <= output.Length && output.Length + s <= |input| && overlapLength <= s
      modifies this`usedInputSamples, output
      ensures output[..] == Cut(input, p, s, overlapLength, output.Length)
      ensures usedInputSamples == output.Length + s
    {
      var used := output.Length + s;
      WriteSplice(input[..p], input[p..p + overlapLength], input[p + s..p + s + overlapLength],
                  input[p + s + overlapLength..used], output);
      usedInputSamples := used;
    }

    method ChooseRemoval(input: seq<real>, m: nat, fastMode: bool)
      returns (r: TimeStretchResult, p: nat, s: nat, ghost regionStart: nat, ghost regionLen: nat)
      requires m < |input| && 2 * overlapLength <= m && overlapLength <= |input| - m
      modifies this`lowEnergyThreshold
      ensures var maxRemove := MaxLowEnergy(|input|, m, overlapLength, fastMode);
        && IsLongest(Usable(input, m, overlapLength, fastMode), old(lowEnergyThreshold),
                     FitsOutput(m, overlapLength, maxRemove), regionStart, regionLen)
        && lowEnergyThreshold == AdaptThreshold(old(lowEnergyThreshold), regionLen, maxRemove)
      ensures RemovalChosen(input, m, overlapLength, fastMode, regionStart, regionLen, r, p, s)
    {
      var maxLow := MaxLowEnergy(|input|, m, overlapLength, fastMode);
      var maxHigh := if fastMode then MaxHighEnergy(|input|, m, overlapLength) else 0;
      p, s, regionStart, regionLen := FindLowEnergyToRemove(input, m, maxLow);
      LowRemovalChosen(input, m, overlapLength, fastMode, old(lowEnergyThreshold), regionStart, regionLen);
      if !fastMode && s == 0 {
        r, p := NoStretch, 0;
      } else if fastMode && s < maxHigh {
        r := Success;
        p, s := HighEnergyRemoval(input, m, overlapLength, regionStart, regionLen);
      } else {
        r := SuccessLowEnergy;
      }
    }

    method Process(input: seq<real>, output: array<real>, fastMode: bool)
      returns (r: TimeStretchResult, ghost p: nat, ghost s: nat, ghost regionStart: nat, ghost regionLen: nat)
      requires AccelerateInRange(|input|, output.Length, overlapLength)
      modifies this, output
      ensures |input| <= output.Length ==>
        r.NoStretch? && output[..] == input + old(output[|input|..]) && usedInputSamples == |input|
      ensures output.Length < |input| && output.Length < 2 * overlapLength ==>
        r.NoStretch? && output[..] == input[..output.Length] && usedInputSamples == output.Length
      ensures |input| <= output.Length || output.Length < 2 * overlapLength ==>
        lowEnergyThreshold == old(lowEnergyThreshold)
      ensures output.Length < |input| && 2 * overlapLength <= output.Length ==>
        Accelerated(input, output.Length, overlapLength, fastMode, old(lowEnergyThreshold),
                    r, output[..], usedInputSamples, lowEnergyThreshold, p, s, regionStart, regionLen)
    {
      r, p, s, regionStart, regionLen := NoStretch, 0, 0, 0, 0;
      var m := output.Length;
      if |input| <= m {
        CopyInto(input, output, 0);
        usedInputSamples := |input|;
      } else if m < overlapLength * 2 {
        CopyInto(input[..m], output, 0);
        usedInputSamples := m;
      } else {
        var cutAt, cutLength;
        r, cutAt, cutLength, regionStart, regionLen := ChooseRemoval(input, m, fastMode);
        p, s := cutAt, cutLength;
        if r.NoStretch? {
          CopyInto(input[..m], output, 0);
          usedInputSamples := m;
        } else {
          WriteCut(input, cutAt, cutLength, output);
        }
      }
    }
  }
}
