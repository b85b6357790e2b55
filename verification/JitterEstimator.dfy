/** Interarrival jitter of section 6.4.1 of RFC 3550 (videocall-codecs/src/jitter_estimator.rs), over reals. */
module JitterEstimation {
  import opened Numbers

  /** Milliseconds per frame of a 30 fps source. */
  const FRAME_PERIOD_MS: real := 1000.0 / 30.0

  datatype Estimate = Estimate(jitter: real, lastArrivalMs: nat, lastSequence: nat, isFirst: bool)

  const INITIAL: Estimate := Estimate(0.0, 0, 0, true)

  /** Difference in transit time between the last in-order frame and this one. */
  function TransitDiff(e: Estimate, sequence: nat, arrivalMs: nat): real {
    (arrivalMs - e.lastArrivalMs) as real - (sequence - e.lastSequence) as real * FRAME_PERIOD_MS
  }

  function Updated(e: Estimate, sequence: nat, arrivalMs: nat): Estimate {
    if e.isFirst then e.(lastArrivalMs := arrivalMs, lastSequence := sequence, isFirst := false)
    else if sequence > e.lastSequence then
      Estimate(e.jitter + (AbsReal(TransitDiff(e, sequence, arrivalMs)) - e.jitter) / 16.0, arrivalMs, sequence, false)
    else e
  }

  // ----- runs ------------------------------------------------------------------

  datatype Arrival = Arrival(sequence: nat, atMs: nat)

  function Run(arrivals: seq<Arrival>): Estimate {
    if arrivals == [] then INITIAL
    else
      var a := arrivals[|arrivals| - 1];
      Updated(Run(arrivals[..|arrivals| - 1]), a.sequence, a.atMs)
  }

  /** Every transit difference that enters the estimate during the run is at most `bound`. */
  ghost predicate TransitWithin(arrivals: seq<Arrival>, bound: real) {
    forall k :: 0 <= k < |arrivals| ==> StepWithin(Run(arrivals[..k]), arrivals[k], bound)
  }

  ghost predicate StepWithin(e: Estimate, a: Arrival, bound: real) {
    !e.isFirst && a.sequence > e.lastSequence ==> AbsReal(TransitDiff(e, a.sequence, a.atMs)) <= bound
  }

  lemma StepKeepsBound(e: Estimate, a: Arrival, bound: real)
    requires 0.0 <= e.jitter <= bound && StepWithin(e, a, bound)
    ensures 0.0 <= Updated(e, a.sequence, a.atMs).jitter <= bound
  {
  }

  /** The jitter stays between 0 and any bound on the transit differences, over every run. */
  lemma {:induction false} JitterStaysBounded(arrivals: seq<Arrival>, bound: real)
    requires 0.0 <= bound && TransitWithin(arrivals, bound)
    ensures 0.0 <= Run(arrivals).jitter <= bound
  {
    if arrivals == [] {
    } else {
      var n := |arrivals| - 1;
      forall k | 0 <= k < n ensures StepWithin(Run(arrivals[..n][..k]), arrivals[..n][k], bound) {
        assert arrivals[..n][..k] == arrivals[..k];
      }
      JitterStaysBounded(arrivals[..n], bound);
      StepKeepsBound(Run(arrivals[..n]), arrivals[n], bound);
    }
  }

  /** The first frame only sets the reference for the next. */
  lemma FirstFrameStarts(e: Estimate, sequence: nat, arrivalMs: nat)
    requires e.isFirst
    ensures Updated(e, sequence, arrivalMs) == Estimate(e.jitter, arrivalMs, sequence, false)
  {
  }

  /** A late or repeated frame changes nothing. */
  lemma LateFramesAreIgnored(e: Estimate, sequence: nat, arrivalMs: nat)
    requires !e.isFirst && sequence <= e.lastSequence
    ensures Updated(e, sequence, arrivalMs) == e
  {
  }

  /** The jitter never goes negative, whatever arrives. */
  lemma UpdatedNonNegative(e: Estimate, sequence: nat, arrivalMs: nat)
    requires 0.0 <= e.jitter
    ensures 0.0 <= Updated(e, sequence, arrivalMs).jitter
  {
  }

  // ----- what the estimate converges to --------------------------------------------------

  /** `next` follows `prev` in order, off by `d` ms from 30 frames a second. */
  ghost predicate IsOffBy(prev: Arrival, next: Arrival, d: real) {
    && prev.sequence < next.sequence
    && AbsReal((next.atMs - prev.atMs) as real - (next.sequence - prev.sequence) as real * 1000.0 / 30.0) == d
  }

  ghost function RunFrom(e: Estimate, arrivals: seq<Arrival>): Estimate {
    if arrivals == [] then e
    else
      var a := arrivals[|arrivals| - 1];
      Updated(RunFrom(e, arrivals[..|arrivals| - 1]), a.sequence, a.atMs)
  }

  function LastOf(e: Estimate): Arrival { Arrival(e.lastSequence, e.lastArrivalMs) }

  /** The arrival before number `i`. */
  function Previous(e: Estimate, arrivals: seq<Arrival>, i: nat): Arrival
    requires i <= |arrivals|
  {
    if i == 0 then LastOf(e) else arrivals[i - 1]
  }

  /** The arrivals after the frame that `e` saw last, each off by `d` from the one before. */
  ghost predicate IsSteady(e: Estimate, arrivals: seq<Arrival>, d: real) {
    !e.isFirst && forall i: nat :: i < |arrivals| ==> IsOffBy(Previous(e, arrivals, i), arrivals[i], d)
  }

  lemma SteadyPrefix(e: Estimate, arrivals: seq<Arrival>, d: real, n: nat)
    requires IsSteady(e, arrivals, d) && n <= |arrivals|
    ensures IsSteady(e, arrivals[..n], d)
  {
    forall i: nat | i < n ensures IsOffBy(Previous(e, arrivals[..n], i), arrivals[..n][i], d) {
      assert IsOffBy(Previous(e, arrivals, i), arrivals[i], d);
    }
  }

  lemma SteadyStep(e: Estimate, a: Arrival, d: real)
    requires !e.isFirst && IsOffBy(LastOf(e), a, d)
    ensures var e' := Updated(e, a.sequence, a.atMs);
      d - e'.jitter == 15.0 / 16.0 * (d - e.jitter) && !e'.isFirst && LastOf(e') == a
  {
    var n := (a.sequence - e.lastSequence) as real;
    assert n * FRAME_PERIOD_MS == n * 1000.0 / 30.0;
  }

  /** After each arrival: `last` is the one just seen, and what is left of the distance to `d`. */
  ghost predicate HasShrunk(e: Estimate, last: Arrival, d: real, left: real) {
    !e.isFirst && LastOf(e) == last && d - e.jitter == left
  }

  lemma SteadyStepAt(e: Estimate, arrivals: seq<Arrival>, d: real, n: nat, now: Estimate, left: real)
    requires IsSteady(e, arrivals, d) && n < |arrivals| && HasShrunk(now, Previous(e, arrivals, n), d, left)
    ensures HasShrunk(Updated(now, arrivals[n].sequence, arrivals[n].atMs), arrivals[n], d, 15.0 / 16.0 * left)
  {
    assert IsOffBy(Previous(e, arrivals, n), arrivals[n], d);
    SteadyStep(now, arrivals[n], d);
  }

  lemma {:induction false} JitterShrinks(e: Estimate, arrivals: seq<Arrival>, d: real)
    requires IsSteady(e, arrivals, d)
    ensures HasShrunk(RunFrom(e, arrivals), Previous(e, arrivals, |arrivals|), d, Shrunk(15.0 / 16.0, d - e.jitter, |arrivals|))
  {
    if arrivals == [] {
    } else {
      var n := |arrivals| - 1;
      SteadyPrefix(e, arrivals, d, n);
      JitterShrinks(e, arrivals[..n], d);
      assert Previous(e, arrivals[..n], n) == Previous(e, arrivals, n);
      SteadyStepAt(e, arrivals, d, n, RunFrom(e, arrivals[..n]), Shrunk(15.0 / 16.0, d - e.jitter, n));
    }
  }

  /** `k` steps of 15/16 from `start` toward `d`. */
  ghost predicate HasApproached(d: real, start: real, reached: real, k: nat) {
    d - reached == Pow(15.0 / 16.0, k) * (d - start)
  }

  lemma ShrunkHasApproached(now: Estimate, last: Arrival, d: real, start: real, k: nat)
    requires HasShrunk(now, last, d, Shrunk(15.0 / 16.0, d - start, k))
    ensures HasApproached(d, start, now.jitter, k)
  {
    ShrunkIsPow(15.0 / 16.0, d - start, k);
  }

  /** A constant transit difference `d` is approached by 15/16 per frame; on-time frames (d = 0) let the jitter decay. */
  lemma {:induction false} JitterConverges(e: Estimate, arrivals: seq<Arrival>, d: real)
    requires IsSteady(e, arrivals, d)
    ensures HasApproached(d, e.jitter, RunFrom(e, arrivals).jitter, |arrivals|)
  {
    JitterShrinks(e, arrivals, d);
    ShrunkHasApproached(RunFrom(e, arrivals), Previous(e, arrivals, |arrivals|), d, e.jitter, |arrivals|);
  }

  class JitterEstimator {
    var jitter: real
    var lastArrivalMs: nat
    var lastSequence: nat
    var isFirst: bool

    ghost function View(): Estimate
      reads this
    {
      Estimate(jitter, lastArrivalMs, lastSequence, isFirst)
    }

    constructor ()
      ensures View() == INITIAL
    {
      jitter, lastArrivalMs, lastSequence, isFirst := 0.0, 0, 0, true;
    }

    /** An in-order frame must not arrive before the previous one (unsigned subtraction). */
    method UpdateEstimate(sequence: nat, arrivalMs: nat)
      requires !isFirst && sequence > lastSequence ==> lastArrivalMs <= arrivalMs
      modifies this
      ensures View() == Updated(old(View()), sequence, arrivalMs)
    {
      if isFirst {
        lastArrivalMs, lastSequence, isFirst := arrivalMs, sequence, false;
        return;
      }
      if sequence > lastSequence {
        var arrivalDiff: nat := arrivalMs - lastArrivalMs;
        var seqDiff: nat := sequence - lastSequence;
        var transitDiff := arrivalDiff as real - seqDiff as real * FRAME_PERIOD_MS;
        jitter := jitter + (AbsReal(transitDiff) - jitter) / 16.0;
        lastArrivalMs, lastSequence := arrivalMs, sequence;
      }
    }
  }
}
