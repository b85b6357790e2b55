/**
 The search for the longest low-energy region (Accelerate::longest_low_energy_region in
 neteq/src/time_stretch.rs): a stack of rolling-sum peaks and one reverse scan, proved to
 return the longest region there is.
 */
module LowEnergy {

  // ----- reference definitions -------------------------------------------------

  /** Energy of the samples in [lo, hi). */
  function Energy(x: seq<real>, lo: nat, hi: nat): real
    requires lo <= hi <= |x|
    decreases hi
  {
    if lo == hi then 0.0 else Energy(x, lo, hi - 1) + x[hi - 1] * x[hi - 1]
  }

  /** A nonempty region whose mean energy is at most the threshold. */
  ghost predicate LowRegion(x: seq<real>, threshold: real, i: nat, len: nat) {
    0 < len && i + len <= |x| && Energy(x, i, i + len) <= threshold * len as real
  }

  ghost predicate Candidate(x: seq<real>, threshold: real, valid: (nat, nat) -> bool, i: nat, len: nat) {
    LowRegion(x, threshold, i, len) && valid(i, len)
  }

  /** The validator stays true when the start moves one earlier and the end stays. */
  ghost predicate StartClosed(valid: (nat, nat) -> bool) {
    forall i: nat, len: nat :: 0 < i && valid(i, len) ==> valid(i - 1, len + 1)
  }

  /** Shorter than the best region, or as long and not starting later. */
  ghost predicate NotBetter(i: nat, len: nat, bestI: nat, maxLen: nat) {
    len < maxLen || (len == maxLen && i <= bestI)
  }

  // ----- rolling sum of the deviation from the threshold ------------------------

  ghost function Deviation(x: seq<real>, threshold: real, k: nat): real
    requires k <= |x|
  {
    if k == 0 then 0.0 else Deviation(x, threshold, k - 1) + x[k - 1] * x[k - 1] - threshold
  }

  lemma {:induction false} DeviationDifference(x: seq<real>, threshold: real, i: nat, len: nat)
    requires i + len <= |x|
    ensures Deviation(x, threshold, i + len) - Deviation(x, threshold, i)
         == Energy(x, i, i + len) - threshold * len as real
    decreases len
  {
    if len == 0 {
    } else {
      DeviationDifference(x, threshold, i, len - 1);
      assert threshold * len as real == threshold * (len - 1) as real + threshold;
    }
  }

  ghost predicate IsSums(x: seq<real>, threshold: real, sums: seq<real>) {
    |sums| == |x| + 1 && forall k :: 0 <= k < |sums| ==> sums[k] == Deviation(x, threshold, k)
  }

  lemma LowIffSums(x: seq<real>, threshold: real, sums: seq<real>, i: nat, len: nat)
    requires IsSums(x, threshold, sums) && i + len <= |x| && 0 < len
    ensures LowRegion(x, threshold, i, len) <==> sums[i + len] <= sums[i]
  {
    DeviationDifference(x, threshold, i, len);
  }

  /** No earlier rolling sum is as high. */
  ghost predicate IsPeak(sums: seq<real>, k: nat) {
    k < |sums| && forall m :: 0 <= m < k ==> sums[m] < sums[k]
  }

  lemma {:induction false} PeakBefore(sums: seq<real>, i: nat) returns (p: nat)
    requires i < |sums|
    ensures p <= i && IsPeak(sums, p) && sums[p] >= sums[i]
    ensures forall m :: 0 <= m <= i ==> sums[m] <= sums[p]
  {
    if i == 0 {
      p := 0;
    } else {
      p := PeakBefore(sums, i - 1);
      if sums[i] > sums[p] { p := i; }
    }
  }

  lemma {:induction false} ShiftStart(valid: (nat, nat) -> bool, i: nat, len: nat, d: nat)
    requires StartClosed(valid) && valid(i, len) && d <= i
    ensures valid(i - d, len + d)
    decreases d
  {
    if d == 0 {
    } else {
      ShiftStart(valid, i, len, d - 1);
      assert valid(i - (d - 1) - 1, len + (d - 1) + 1);
    }
  }

  // ----- the three steps of the search ------------------------------------------

  method RollingSums(x: seq<real>, threshold: real) returns (sums: seq<real>)
    ensures IsSums(x, threshold, sums)
  {
    sums := [0.0];
    for k := 0 to |x|
      invariant |sums| == k + 1
      invariant forall m :: 0 <= m < |sums| ==> sums[m] == Deviation(x, threshold, m)
    {
      sums := sums + [sums[|sums| - 1] + x[k] * x[k] - threshold];
    }
  }

  /** `peaks` lists the peaks of `sums` below `n`, and nothing else, in increasing order. */
  ghost predicate PeaksBelow(sums: seq<real>, n: nat, peaks: seq<nat>) {
    && (forall k :: 0 <= k < |peaks| ==> peaks[k] < n && IsPeak(sums, peaks[k]))
    && (forall k, m :: 0 <= k < m < |peaks| ==> peaks[k] < peaks[m])
    && (forall p: nat :: p < n && IsPeak(sums, p) ==> p in peaks)
  }

  ghost predicate IsPeakStack(sums: seq<real>, peaks: seq<nat>) {
    PeaksBelow(sums, |sums|, peaks)
  }

  ghost predicate TopIsMax(sums: seq<real>, n: nat, peaks: seq<nat>)
    requires n <= |sums|
  {
    if n == 0 then peaks == []
    else |peaks| > 0 && peaks[|peaks| - 1] < n &&
         forall m :: 0 <= m < n ==> sums[m] <= sums[peaks[|peaks| - 1]]
  }

  lemma NextPeak(sums: seq<real>, n: nat, peaks: seq<nat>)
    requires n < |sums| && PeaksBelow(sums, n, peaks) && TopIsMax(sums, n, peaks)
    ensures |peaks| == 0 || sums[n] > sums[peaks[|peaks| - 1]] ==> PeaksBelow(sums, n + 1, peaks + [n])
    ensures |peaks| > 0 && sums[n] <= sums[peaks[|peaks| - 1]] ==> PeaksBelow(sums, n + 1, peaks)
  {
    if |peaks| > 0 && sums[n] <= sums[peaks[|peaks| - 1]] {
      assert !IsPeak(sums, n);
    } else {
      assert IsPeak(sums, n);
      forall p: nat | p < n + 1 && IsPeak(sums, p) ensures p in peaks + [n] {
        if p < n { assert p in peaks; }
      }
    }
  }

  method PeakStack(sums: seq<real>) returns (stack: seq<nat>)
    ensures IsPeakStack(sums, stack)
  {
    stack := [];
    for i := 0 to |sums|
      invariant PeaksBelow(sums, i, stack) && TopIsMax(sums, i, stack)
    {
      NextPeak(sums, i, stack);
      if |stack| == 0 || sums[i] > sums[stack[|stack| - 1]] {
        stack := stack + [i];
      }
    }
  }

  /** A region that starts at a peak, in terms of the rolling sums. */
  ghost predicate PeakCandidate(sums: seq<real>, valid: (nat, nat) -> bool, p: nat, j: nat) {
    p < j < |sums| && IsPeak(sums, p) && sums[j] <= sums[p] && valid(p, j - p)
  }

  /** Every peak candidate that ends at `from` or later has been accounted for. */
  ghost predicate Accounted(sums: seq<real>, valid: (nat, nat) -> bool, from: nat, bestI: nat, maxLen: nat) {
    forall p: nat, j: nat :: from <= j && PeakCandidate(sums, valid, p, j) ==> NotBetter(p, j - p, bestI, maxLen)
  }

  /** Peaks cut from the stack cannot start a longer region that ends before `j`. */
  ghost predicate CutIsSafe(peaks: seq<nat>, size: nat, j: nat, maxLen: nat) {
    forall k :: size <= k < |peaks| ==> j <= maxLen + peaks[k]
  }

  ghost predicate BestSoFar(sums: seq<real>, valid: (nat, nat) -> bool, j: nat, bestI: nat, maxLen: nat) {
    if maxLen == 0 then bestI == 0
    else j <= bestI + maxLen && PeakCandidate(sums, valid, bestI, bestI + maxLen)
  }

  /** For the end `j`, the peaks at stack positions `from` and above have been accounted for. */
  ghost predicate AccountedAbove(sums: seq<real>, valid: (nat, nat) -> bool, peaks: seq<nat>, from: nat, j: nat,
                                 bestI: nat, maxLen: nat)
  {
    forall k: nat :: from <= k < |peaks| && PeakCandidate(sums, valid, peaks[k], j)
      ==> NotBetter(peaks[k], j - peaks[k], bestI, maxLen)
  }

  /** State of the scan at the end `j` with the top of the stack at position `si`. */
  ghost predicate ScanState(sums: seq<real>, valid: (nat, nat) -> bool, peaks: seq<nat>, size: nat, si: nat, j: nat,
                            bestI: nat, maxLen: nat)
  {
    && BestSoFar(sums, valid, j, bestI, maxLen)
    && Accounted(sums, valid, j + 1, bestI, maxLen)
    && CutIsSafe(peaks, size, j, maxLen)
    && AccountedAbove(sums, valid, peaks, si, j, bestI, maxLen)
  }

  lemma KeepBest(sums: seq<real>, valid: (nat, nat) -> bool, peaks: seq<nat>, size: nat, si: nat, j: nat, bestI: nat, maxLen: nat)
    requires si < size <= |peaks| && IsPeakStack(sums, peaks) && peaks[si] < j < |sums|
    requires ScanState(sums, valid, peaks, size, si + 1, j, bestI, maxLen)
    requires j - peaks[si] <= maxLen || !valid(peaks[si], j - peaks[si])
    ensures ScanState(sums, valid, peaks, size, si, j, bestI, maxLen)
  {
  }

  lemma TakeBetter(sums: seq<real>, valid: (nat, nat) -> bool, peaks: seq<nat>, size: nat, si: nat, j: nat, bestI: nat, maxLen: nat)
    requires si < size <= |peaks| && IsPeakStack(sums, peaks) && peaks[si] < j < |sums|
    requires ScanState(sums, valid, peaks, size, si + 1, j, bestI, maxLen)
    requires sums[j] <= sums[peaks[si]]
    requires j - peaks[si] > maxLen && valid(peaks[si], j - peaks[si])
    ensures ScanState(sums, valid, peaks, si, si, j, peaks[si], j - peaks[si])
  {
    forall k: nat | si <= k < |peaks| ensures peaks[si] <= peaks[k] {
    }
  }

  /** Below a peak that is lower than sums[j] nothing can start a region ending at `j`. */
  lemma LowerPeaksFail(sums: seq<real>, valid: (nat, nat) -> bool, peaks: seq<nat>, size: nat, si: nat, j: nat, bestI: nat, maxLen: nat)
    requires si < |peaks| && IsPeakStack(sums, peaks) && j < |sums|
    requires ScanState(sums, valid, peaks, size, si + 1, j, bestI, maxLen)
    requires sums[j] > sums[peaks[si]]
    ensures ScanState(sums, valid, peaks, size, 0, j, bestI, maxLen)
  {
    forall k: nat | k <= si ensures sums[peaks[k]] < sums[j] {
      if k < si {
        assert peaks[k] < peaks[si] && IsPeak(sums, peaks[si]);
      }
    }
  }

  lemma EndAccounted(sums: seq<real>, valid: (nat, nat) -> bool, peaks: seq<nat>, size: nat, j: nat, bestI: nat, maxLen: nat)
    requires IsPeakStack(sums, peaks) && ScanState(sums, valid, peaks, size, 0, j, bestI, maxLen)
    ensures Accounted(sums, valid, j, bestI, maxLen)
  {
    forall p: nat | PeakCandidate(sums, valid, p, j) ensures NotBetter(p, j - p, bestI, maxLen) {
      assert p in peaks;
      var k: nat :| k < |peaks| && peaks[k] == p;
    }
  }

  /** The inner loop: best start among the stacked peaks for one fixed end `j`. */
  method ScanEnd(sums: seq<real>, valid: (nat, nat) -> bool, ghost peaks: seq<nat>,
                 stack0: seq<nat>, j: nat, bestI0: nat, maxLen0: nat)
    returns (stack: seq<nat>, bestI: nat, maxLen: nat)
    requires j < |sums| && IsPeakStack(sums, peaks)
    requires |stack0| <= |peaks| && stack0 == peaks[..|stack0|]
    requires forall k :: 0 <= k < |stack0| ==> stack0[k] < j
    requires ScanState(sums, valid, peaks, |stack0|, |stack0|, j, bestI0, maxLen0)
    ensures |stack| <= |stack0| && stack == peaks[..|stack|]
    ensures ScanState(sums, valid, peaks, |stack|, 0, j, bestI, maxLen)
  {
    stack, bestI, maxLen := stack0, bestI0, maxLen0;
    var si := |stack|;
    while si > 0
      invariant 0 <= si <= |stack| <= |stack0| && stack == peaks[..|stack|]
      invariant ScanState(sums, valid, peaks, |stack|, si, j, bestI, maxLen)
    {
      si := si - 1;
      var i := stack[si];
      assert i == peaks[si] == stack0[si];
      if sums[j] <= sums[i] {
        var len := j - i;
        if len > maxLen && valid(i, len) {
          TakeBetter(sums, valid, peaks, |stack|, si, j, bestI, maxLen);
          maxLen, bestI := len, i;
          stack := stack[..si];
        } else {
          KeepBest(sums, valid, peaks, |stack|, si, j, bestI, maxLen);
        }
      } else {
        LowerPeaksFail(sums, valid, peaks, |stack|, si, j, bestI, maxLen);
        break;
      }
    }
  }

  /** Drops the stacked peaks that cannot start a region ending at `j`. */
  method PopFrom(ghost sums: seq<real>, ghost peaks: seq<nat>, stack0: seq<nat>, j: nat, ghost maxLen: nat)
    returns (stack: seq<nat>)
    requires IsPeakStack(sums, peaks)
    requires |stack0| <= |peaks| && stack0 == peaks[..|stack0|]
    requires CutIsSafe(peaks, |stack0|, j, maxLen)
    ensures |stack| <= |stack0| && stack == peaks[..|stack|]
    ensures forall k :: 0 <= k < |stack| ==> stack[k] < j
    ensures CutIsSafe(peaks, |stack|, j, maxLen)
  {
    stack := stack0;
    while |stack| > 0 && stack[|stack| - 1] >= j
      invariant |stack| <= |stack0| && stack == peaks[..|stack|]
      invariant CutIsSafe(peaks, |stack|, j, maxLen)
    {
      stack := stack[..|stack| - 1];
    }
  }

  lemma AfterPop(sums: seq<real>, valid: (nat, nat) -> bool, peaks: seq<nat>, size: nat, j: nat, bestI: nat, maxLen: nat)
    requires size <= |peaks| && IsPeakStack(sums, peaks) && CutIsSafe(peaks, size, j, maxLen)
    requires BestSoFar(sums, valid, j + 1, bestI, maxLen) && Accounted(sums, valid, j + 1, bestI, maxLen)
    ensures ScanState(sums, valid, peaks, size, size, j, bestI, maxLen)
    ensures size == 0 ==> Accounted(sums, valid, 0, bestI, maxLen)
  {
    if size == 0 {
      forall p: nat, e: nat | PeakCandidate(sums, valid, p, e) ensures NotBetter(p, e - p, bestI, maxLen) {
        assert p in peaks;
      }
    }
  }

  method ReverseScan(sums: seq<real>, valid: (nat, nat) -> bool, peaks: seq<nat>)
    returns (bestI: nat, maxLen: nat)
    requires IsPeakStack(sums, peaks)
    ensures BestSoFar(sums, valid, 0, bestI, maxLen)
    ensures Accounted(sums, valid, 0, bestI, maxLen)
  {
    bestI, maxLen := 0, 0;
    var stack := peaks;
    for j := |sums| downto 0
      invariant |stack| <= |peaks| && stack == peaks[..|stack|]
      invariant BestSoFar(sums, valid, j, bestI, maxLen)
      invariant Accounted(sums, valid, j, bestI, maxLen)
      invariant CutIsSafe(peaks, |stack|, j, maxLen)
    {
      stack := PopFrom(sums, peaks, stack, j, maxLen);
      AfterPop(sums, valid, peaks, |stack|, j, bestI, maxLen);
      if |stack| == 0 {
        break;
      }
      stack, bestI, maxLen := ScanEnd(sums, valid, peaks, stack, j, bestI, maxLen);
      EndAccounted(sums, valid, peaks, |stack|, j, bestI, maxLen);
    }
  }

  // ----- the search ---------------------------------------------------------------

  /** `(bestI, maxLen)` is the last of the longest candidates; length 0 means there is none. */
  ghost predicate IsLongest(x: seq<real>, threshold: real, valid: (nat, nat) -> bool, bestI: nat, maxLen: nat) {
    && (maxLen == 0 ==> bestI == 0)
    && (maxLen > 0 ==> Candidate(x, threshold, valid, bestI, maxLen))
    && (forall i: nat, len: nat :: Candidate(x, threshold, valid, i, len) ==> NotBetter(i, len, bestI, maxLen))
  }

  /** What holds for any validator: the best among the regions that start at a peak. */
  ghost predicate IsLongestAtPeaks(x: seq<real>, threshold: real, valid: (nat, nat) -> bool,
                                   sums: seq<real>, bestI: nat, maxLen: nat)
  {
    && (maxLen == 0 ==> bestI == 0)
    && (maxLen > 0 ==> Candidate(x, threshold, valid, bestI, maxLen) && IsPeak(sums, bestI))
    && (forall i: nat, len: nat :: Candidate(x, threshold, valid, i, len) && IsPeak(sums, i)
          ==> NotBetter(i, len, bestI, maxLen))
  }

  /** With a start-closed validator every candidate is covered by a longer one at a peak. */
  lemma PeaksSuffice(x: seq<real>, threshold: real, valid: (nat, nat) -> bool, sums: seq<real>, bestI: nat, maxLen: nat)
    requires IsSums(x, threshold, sums) && StartClosed(valid)
    requires IsLongestAtPeaks(x, threshold, valid, sums, bestI, maxLen)
    ensures IsLongest(x, threshold, valid, bestI, maxLen)
  {
    forall i: nat, len: nat | Candidate(x, threshold, valid, i, len)
      ensures NotBetter(i, len, bestI, maxLen)
    {
      var p := PeakBefore(sums, i);
      ShiftStart(valid, i, len, i - p);
      LowIffSums(x, threshold, sums, i, len);
      LowIffSums(x, threshold, sums, p, len + (i - p));
      assert Candidate(x, threshold, valid, p, len + (i - p));
    }
  }

  lemma ScanMeetsSpec(x: seq<real>, threshold: real, valid: (nat, nat) -> bool, sums: seq<real>, bestI: nat, maxLen: nat)
    requires IsSums(x, threshold, sums)
    requires BestSoFar(sums, valid, 0, bestI, maxLen) && Accounted(sums, valid, 0, bestI, maxLen)
    ensures IsLongestAtPeaks(x, threshold, valid, sums, bestI, maxLen)
  {
    if maxLen > 0 {
      LowIffSums(x, threshold, sums, bestI, maxLen);
    }
    forall i: nat, len: nat | Candidate(x, threshold, valid, i, len) && IsPeak(sums, i)
      ensures NotBetter(i, len, bestI, maxLen)
    {
      LowIffSums(x, threshold, sums, i, len);
      assert PeakCandidate(sums, valid, i, i + len);
    }
  }

  method LongestLowEnergyRegion(input: seq<real>, threshold: real, valid: (nat, nat) -> bool)
    returns (bestI: nat, maxLen: nat)
    ensures exists sums :: IsSums(input, threshold, sums) &&
                           IsLongestAtPeaks(input, threshold, valid, sums, bestI, maxLen)
    ensures StartClosed(valid) ==> IsLongest(input, threshold, valid, bestI, maxLen)
  {
    var sums := RollingSums(input, threshold);
    var stack := PeakStack(sums);
    bestI, maxLen := ReverseScan(sums, valid, stack);
    ScanMeetsSpec(input, threshold, valid, sums, bestI, maxLen);
    if StartClosed(valid) {
      PeaksSuffice(input, threshold, valid, sums, bestI, maxLen);
    }
  }

  /** The answer is unique, so the search is fully determined by its contract. */
  lemma LongestIsUnique(x: seq<real>, threshold: real, valid: (nat, nat) -> bool, i: nat, len: nat, i': nat, len': nat)
    requires IsLongest(x, threshold, valid, i, len) && IsLongest(x, threshold, valid, i', len')
    ensures i == i' && len == len'
  {
    if len == 0 || len' == 0 {
      assert len == 0 ==> len' == 0;
      assert len' == 0 ==> len == 0;
    } else {
      assert NotBetter(i, len, i', len') && NotBetter(i', len', i, len);
    }
  }

  /** Some candidate that starts at a peak is not worse than `(i, len)`. */
  ghost predicate MatchedAtPeak(x: seq<real>, threshold: real, valid: (nat, nat) -> bool, sums: seq<real>, i: nat, len: nat) {
    exists p: nat, l: nat :: Candidate(x, threshold, valid, p, l) && IsPeak(sums, p) && NotBetter(i, len, p, l)
  }

  /** For any validator: the result is the longest exactly when every candidate is matched by one at a peak. */
  lemma LongestIff(x: seq<real>, threshold: real, valid: (nat, nat) -> bool, sums: seq<real>, bestI: nat, maxLen: nat)
    requires IsLongestAtPeaks(x, threshold, valid, sums, bestI, maxLen)
    ensures IsLongest(x, threshold, valid, bestI, maxLen) <==>
      (forall i: nat, len: nat :: Candidate(x, threshold, valid, i, len) ==> MatchedAtPeak(x, threshold, valid, sums, i, len))
  {
    forall i: nat, len: nat | Candidate(x, threshold, valid, i, len) && MatchedAtPeak(x, threshold, valid, sums, i, len)
      ensures NotBetter(i, len, bestI, maxLen)
    {
      var p: nat, l: nat :| Candidate(x, threshold, valid, p, l) && IsPeak(sums, p) && NotBetter(i, len, p, l);
      assert NotBetter(p, l, bestI, maxLen);
    }
    forall i: nat, len: nat | IsLongest(x, threshold, valid, bestI, maxLen) && Candidate(x, threshold, valid, i, len)
      ensures MatchedAtPeak(x, threshold, valid, sums, i, len)
    {
      assert NotBetter(i, len, bestI, maxLen);
      assert Candidate(x, threshold, valid, bestI, maxLen) && IsPeak(sums, bestI);
    }
  }

  /** Without closure the search can miss every region: only (1, 1) is allowed here, and it is low. */
  lemma OpenValidatorMisses(bestI: nat, maxLen: nat, sums: seq<real>)
    requires IsSums([0.0, 0.0], 0.0, sums)
    requires IsLongestAtPeaks([0.0, 0.0], 0.0, (i, len) => i == 1 && len == 1, sums, bestI, maxLen)
    ensures maxLen == 0
    ensures Candidate([0.0, 0.0], 0.0, (i, len) => i == 1 && len == 1, 1, 1)
  {
    assert sums[1] == 0.0 && sums[0] == 0.0;
    assert !IsPeak(sums, 1);
    assert Energy([0.0, 0.0], 1, 2) == 0.0;
  }
}
