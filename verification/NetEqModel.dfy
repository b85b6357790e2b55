/** The 10 ms tick of NetEq as a transition: what is decided and what it does to the audio held. */
module NetEqModel {
  import opened Numbers
  import opened TimeStretch
  import opened PreemptiveStretch
  import opened Expansion

  datatype Operation =
    | Normal | Expand | ExpandStart | ExpandEnd
    | Accelerate | FastAccelerate | PreemptiveExpand | TimeStretchBuffer

  /** The fixed part of the configuration. */
  datatype Setup = Setup(sampleRate: nat, channels: nat, stretching: bool) {
    /** Samples in one 10 ms output frame, all channels. */
    function Frame(): nat { sampleRate / 100 * channels }

    function Overlap(): OverlapSize { OverlapLength(sampleRate) }

    /** Otherwise the length subtraction of a preemptive expand of three frames underflows. */
    predicate CanExpand() { Overlap() <= 3 * Frame() }
  }

  /** At every rate from 1100 Hz on it does not. */
  lemma UsualRatesCanExpand(s: Setup)
    requires s.channels > 0 && s.sampleRate >= 1100
    ensures s.CanExpand()
  {
    assert s.Frame() >= s.sampleRate / 100 by {
      var f, c := s.sampleRate / 100, s.channels;
      assert f * c >= f * 1 by { MulLessEq(f, 1, c); }
    }
  }

  /** Audio held: not yet stretched (leftover samples, then the packets), already stretched, expand run length. */
  datatype View = View(pending: seq<real>, stretched: seq<real>, expands: nat)

  // ===== decision =====================================================================

  /** Thresholds in samples for a target delay. */
  function LowLimit(sampleRate: nat, targetMs: nat): nat {
    var perMs := sampleRate / 1000;
    var target := targetMs * perMs;
    Max(target * 3 / 4, SaturatingSub(target, 85 * perMs))
  }

  function HighLimit(sampleRate: nat, targetMs: nat): nat {
    var perMs := sampleRate / 1000;
    Max(targetMs * perMs, LowLimit(sampleRate, targetMs) + 20 * perMs)
  }

  datatype Decision = Decision(op: Operation, expands: nat, reset: bool)

  function Decide(frame: nat, available: nat, hasStretched: bool, expands: nat, low: nat, high: nat, level: nat): Decision {
    if hasStretched then Decision(TimeStretchBuffer, expands, false)
    else if expands > 0 && available < low then Decision(Operation.Expand, Saturated(expands + 1), false)
    else if available < frame * 3 / 2 && available >= frame / 2 && expands == 0 then
      Decision(Operation.ExpandStart, Saturated(expands + 1), false)
    else if available < frame then Decision(Operation.Expand, Saturated(expands + 1), false)
    else if expands > 0 then Decision(Operation.ExpandEnd, 0, expands > 600)
    else if level >= high * 4 then Decision(FastAccelerate, expands, false)
    else if level >= high then Decision(Accelerate, expands, false)
    else if level < low && available >= frame * 3 then Decision(PreemptiveExpand, expands, false)
    else Decision(Normal, expands, false)
  }

  // ===== effect =======================================================================

  function Zeros(n: nat): seq<real> { seq(n, _ => 0.0) }

  /** The queue, padded with silence when a request of `n` samples exceeds it. */
  function Padded(queue: seq<real>, n: nat): (r: seq<real>)
    ensures |r| >= n && |r| >= |queue|
  {
    if |queue| >= n then queue else queue + Zeros(n - |queue|)
  }

  /** Input samples (one channel's worth) accelerate asks for to produce `outLen`. */
  function AccelerateNeed(outLen: nat, fast: bool): nat {
    if fast then 2 * outLen else (3 * outLen + 1) / 2
  }

  /** Output frames of an accelerate: three if the audio suffices, else two, else one. */
  function AccelerateFrames(frame: nat, available: nat, fast: bool): (i: nat)
    ensures 1 <= i <= 3
  {
    if AccelerateNeed(3 * frame, fast) <= available then 3
    else if AccelerateNeed(2 * frame, fast) <= available then 2
    else 1
  }

  /** Samples requested from the queue by an operation. */
  function Requested(s: Setup, op: Operation, available: nat): nat {
    match op
    case Normal => s.Frame()
    case TimeStretchBuffer => 0
    case Expand => 0
    case ExpandStart => s.Overlap() * s.channels
    case ExpandEnd => s.Overlap() * s.channels
    case Accelerate => AccelerateRequest(s, available, false)
    case FastAccelerate => AccelerateRequest(s, available, true)
    case PreemptiveExpand => if s.stretching then 3 * s.Frame() else s.Frame()
  }

  function AccelerateRequest(s: Setup, available: nat, fast: bool): nat {
    if s.stretching then AccelerateNeed(AccelerateFrames(s.Frame(), available, fast) * s.Frame(), fast) * s.channels
    else s.Frame()
  }

  function AccelerateOutput(s: Setup, available: nat, fast: bool): nat {
    if s.stretching then AccelerateFrames(s.Frame(), available, fast) * s.Frame() * s.channels else s.Frame()
  }

  /** Output samples produced by an operation: the frame and what is kept for later frames. */
  function Produced(s: Setup, op: Operation, available: nat): nat {
    match op
    case Accelerate => AccelerateOutput(s, available, false)
    case FastAccelerate => AccelerateOutput(s, available, true)
    case PreemptiveExpand => if s.stretching then 3 * s.Frame() else s.Frame()
    case _ => s.Frame()
  }

  /** Accelerate's output: a verbatim prefix, or one cut with a blended seam. */
  ghost predicate AcceleratedFrom(input: seq<real>, out: seq<real>, used: nat, ov: nat) {
    var m := |out|;
    || (m <= |input| && out == input[..m] && used == m)
    || exists p: nat, cut: nat :: IsCut(input, out, used, ov, p, cut)
  }

  ghost predicate IsCut(input: seq<real>, out: seq<real>, used: nat, ov: nat, p: nat, cut: nat) {
    var m := |out|;
    ov <= cut <= m / 2 && p + ov <= m && m + cut <= |input| && out == Cut(input, p, cut, ov, m) && used == m + cut
  }

  /** Preemptive expand's output: a verbatim prefix, or one lag repeated with a blended seam. */
  ghost predicate ExpandedFrom(input: seq<real>, out: seq<real>, used: nat, ov: nat) {
    var m := |out|;
    || (m <= |input| && out == input[..m] && used == m)
    || exists lag: nat, pos: nat :: IsRepeat(input, out, used, ov, lag, pos)
  }

  ghost predicate IsRepeat(input: seq<real>, out: seq<real>, used: nat, ov: nat, lag: nat, pos: nat) {
    var m := |out|;
    ov <= lag && pos + ov + 2 * lag <= m <= |input| && out == Repeat(input, lag, pos, ov, m) && used == m - lag
  }

  function PhaseOf(op: Operation): ExpandPhase {
    match op
    case ExpandStart => ExpandPhase.ExpandStart
    case ExpandEnd => ExpandPhase.ExpandEnd
    case _ => ExpandPhase.Expand
  }

  /** One call of get_audio. `used` counts the samples taken off the queue. */
  datatype Tick = Tick(before: View, after: View, op: Operation, frame: seq<real>,
                       available: nat, low: nat, high: nat, level: nat, used: nat, noise: seq<real>)

  predicate IsExpanding(op: Operation) { op.Expand? || op.ExpandStart? || op.ExpandEnd? }

  predicate IsStretching(s: Setup, op: Operation) {
    s.stretching && (op.Accelerate? || op.FastAccelerate? || op.PreemptiveExpand?)
  }

  /** The one operation that fails: a preemptive expand whose three frames are shorter than the overlap. */
  predicate Underflows(s: Setup, op: Operation) { IsStretching(s, op) && op.PreemptiveExpand? && !s.CanExpand() }

  /** The input an operation reads: the head of the padded queue. */
  ghost function InputOf(s: Setup, t: Tick): seq<real> {
    var n := Requested(s, t.op, t.available);
    Padded(t.before.pending, n)[..n]
  }

  ghost predicate DecisionOk(s: Setup, t: Tick) {
    var d := Decide(s.Frame(), t.available, t.before.stretched != [], t.before.expands, t.low, t.high, t.level);
    t.op == d.op && t.after.expands == d.expands
  }

  ghost predicate QueueOk(s: Setup, t: Tick) {
    var n := Requested(s, t.op, t.available);
    t.used <= n && t.after.pending == Padded(t.before.pending, n)[t.used..]
  }

  /** What each operation plays and keeps. */
  ghost predicate OutputOk(s: Setup, t: Tick) {
    && |t.frame| == s.Frame()
    && match t.op
       case TimeStretchBuffer =>
         t.before.stretched == t.frame + t.after.stretched && t.used == 0
       case Normal => PlainOutput(s, t)
       case Accelerate => if s.stretching then StretchOutput(s, t) else PlainOutput(s, t)
       case FastAccelerate => if s.stretching then StretchOutput(s, t) else PlainOutput(s, t)
       case PreemptiveExpand => if s.stretching then StretchOutput(s, t) else PlainOutput(s, t)
       case Expand => ExpandOutput(s, t)
       case ExpandStart => ExpandOutput(s, t)
       case ExpandEnd => ExpandOutput(s, t)
  }

  ghost predicate PlainOutput(s: Setup, t: Tick) {
    t.frame == InputOf(s, t) && t.used == s.Frame() && t.after.stretched == []
  }

  /** The stretcher's whole output is the frame followed by the kept samples. */
  ghost predicate StretchOutput(s: Setup, t: Tick) {
    var out := t.frame + t.after.stretched;
    && |out| == Produced(s, t.op, t.available)
    && (if t.op.PreemptiveExpand? then ExpandedFrom(InputOf(s, t), out, t.used, s.Overlap())
        else AcceleratedFrom(InputOf(s, t), out, t.used, s.Overlap()))
  }

  ghost predicate ExpandOutput(s: Setup, t: Tick) {
    && t.after.stretched == []
    && |t.noise| == s.Frame()
    && ConcealedFrom(InputOf(s, t), t.frame, t.used, t.noise, PhaseOf(t.op), s.Overlap())
  }

  /** Concealment, or the input followed by silence when the frame is too short to fade in. */
  ghost predicate ConcealedFrom(input: seq<real>, out: seq<real>, used: nat, noise: seq<real>, phase: ExpandPhase, ov: nat) {
    if SamplesRequired(phase, ov) <= |noise| && SamplesRequired(phase, ov) <= |input| then
      used == SamplesRequired(phase, ov) && out == Concealed(input, noise, phase, ov)
    else
      used == Min(|input|, |noise|) && out == input[..used] + Zeros(|noise| - used)
  }

  ghost predicate TickOk(s: Setup, t: Tick) {
    DecisionOk(s, t) && QueueOk(s, t) && OutputOk(s, t)
  }
}
