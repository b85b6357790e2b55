/** Whole runs of NetEq ticks: the operation language and the accounting of the audio stream. */
module NetEqRuns {
  import opened Numbers
  import opened LevelFilters
  import opened Signal
  import opened TimeStretch
  import opened PreemptiveStretch
  import opened Expansion
  import opened NetEqModel

  // ===== runs =========================================================================

  /** Between two ticks packets may come and go; stretched audio and the expand count stay. */
  ghost predicate Between(v: View, w: View) {
    w.stretched == v.stretched && w.expands == v.expands
  }

  /** A run of ticks without a flush, from a fresh or just flushed NetEq. */
  ghost predicate IsRun(s: Setup, ts: seq<Tick>) {
    && s.channels > 0
    && (forall i :: 0 <= i < |ts| ==> TickOk(s, ts[i]))
    && (|ts| > 0 ==> ts[0].before.stretched == [] && ts[0].before.expands == 0)
    && (forall i :: 0 < i < |ts| ==> Between(ts[i - 1].after, ts[i].before))
  }

  // ===== what a tick does to the stretched audio and the expand count ================

  /** How many further frames an operation leaves in the stretch buffer. */
  function FramesKept(s: Setup, op: Operation, available: nat): nat
    requires s.channels > 0
  {
    match op
    case Accelerate => if s.stretching then AccelerateFrames(s.Frame(), available, false) * s.channels - 1 else 0
    case FastAccelerate => if s.stretching then AccelerateFrames(s.Frame(), available, true) * s.channels - 1 else 0
    case PreemptiveExpand => if s.stretching then 2 else 0
    case _ => 0
  }

  predicate StartsOrContinues(op: Operation) { op.Expand? || op.ExpandStart? }

  /** A tick with stretched audio plays a frame of it; any other tick keeps a whole number of frames. */
  ghost predicate StretchFacts(s: Setup, t: Tick)
    requires s.channels > 0
  {
    && (t.op.TimeStretchBuffer? <==> t.before.stretched != [])
    && (if t.op.TimeStretchBuffer? then |t.frame| == s.Frame() && t.before.stretched == t.frame + t.after.stretched
        else |t.after.stretched| == FramesKept(s, t.op, t.available) * s.Frame())
  }

  /** The expand count is positive exactly after Expand and ExpandStart, and decides what may follow. */
  ghost predicate ExpandFacts(t: Tick) {
    && (t.op.TimeStretchBuffer? ==> t.after.expands == t.before.expands)
    && (!t.op.TimeStretchBuffer? ==> (t.after.expands > 0 <==> StartsOrContinues(t.op)))
    && (!t.op.TimeStretchBuffer? && t.before.expands > 0 ==> t.op.Expand? || t.op.ExpandEnd?)
    && (t.op.ExpandEnd? ==> t.before.expands > 0)
    && (t.op.ExpandStart? ==> t.before.expands == 0)
    && (!t.op.TimeStretchBuffer? && t.after.stretched != [] ==> t.before.expands == 0 && t.after.expands == 0)
  }

  ghost predicate Facts(s: Setup, t: Tick)
    requires s.channels > 0
  {
    StretchFacts(s, t) && ExpandFacts(t)
  }

  lemma WholeFrames(f: nat, i: nat, c: nat)
    requires 1 <= i && 1 <= c
    ensures i * c >= 1 && i * f * c - f == (i * c - 1) * f
  {
    MulLessEq(i, 1, c);
    assert i * f * c == i * c * f;
    assert (i * c - 1) * f == i * c * f - f;
  }

  /** What a stretch keeps is a whole number of frames. */
  lemma ProducedIsWholeFrames(s: Setup, op: Operation, available: nat)
    requires s.channels > 0
    ensures Produced(s, op, available) - s.Frame() == FramesKept(s, op, available) * s.Frame()
  {
    if IsStretching(s, op) && !op.PreemptiveExpand? {
      WholeFrames(s.Frame(), AccelerateFrames(s.Frame(), available, op.FastAccelerate?), s.channels);
    }
  }

  lemma KeptAfter(s: Setup, t: Tick)
    requires s.channels > 0 && TickOk(s, t) && !t.op.TimeStretchBuffer?
    ensures |t.after.stretched| == FramesKept(s, t.op, t.available) * s.Frame()
  {
    ProducedIsWholeFrames(s, t.op, t.available);
    assert |t.frame| + |t.after.stretched| == Produced(s, t.op, t.available);
  }

  lemma TickFacts(s: Setup, t: Tick)
    requires s.channels > 0 && TickOk(s, t)
    ensures Facts(s, t)
  {
    if !t.op.TimeStretchBuffer? {
      KeptAfter(s, t);
    }
  }

  /** A run seen only through these facts. */
  ghost predicate IsFactRun(s: Setup, ts: seq<Tick>) {
    && s.channels > 0
    && (forall i :: 0 <= i < |ts| ==> Facts(s, ts[i]))
    && (|ts| > 0 ==> ts[0].before.stretched == [] && ts[0].before.expands == 0)
    && (forall i :: 0 < i < |ts| ==> Between(ts[i - 1].after, ts[i].before))
  }

  lemma RunFacts(s: Setup, ts: seq<Tick>)
    requires IsRun(s, ts)
    ensures IsFactRun(s, ts)
  {
    forall i | 0 <= i < |ts| ensures Facts(s, ts[i]) {
      TickFacts(s, ts[i]);
    }
  }

  // ===== invariants ===================================================================

  /** Stretched audio comes in whole frames, and only while nothing is being expanded. */
  ghost predicate Inv(s: Setup, v: View) {
    && (v.stretched != [] ==> v.expands == 0)
    && exists c: nat :: |v.stretched| == c * s.Frame()
  }

  lemma FactsKeepInv(s: Setup, t: Tick)
    requires s.channels > 0 && Facts(s, t) && Inv(s, t.before)
    ensures Inv(s, t.after)
  {
    if t.op.TimeStretchBuffer? {
      var c: nat :| |t.before.stretched| == c * s.Frame();
      assert c >= 1;
      assert |t.after.stretched| == (c - 1) * s.Frame();
    }
  }

  lemma TickKeepsInv(s: Setup, t: Tick)
    requires s.channels > 0 && TickOk(s, t) && Inv(s, t.before)
    ensures Inv(s, t.after)
  {
    TickFacts(s, t);
    FactsKeepInv(s, t);
  }

  lemma {:induction false} RunKeepsInv(s: Setup, ts: seq<Tick>, i: nat)
    requires IsFactRun(s, ts) && i < |ts|
    ensures Inv(s, ts[i].before) && Inv(s, ts[i].after)
  {
    if i == 0 {
      assert |ts[0].before.stretched| == 0 * s.Frame();
    } else {
      RunKeepsInv(s, ts, i - 1);
      assert Between(ts[i - 1].after, ts[i].before);
    }
    FactsKeepInv(s, ts[i]);
  }

  // ===== the expand language ==========================================================

  lemma ExpandNeighbours(s: Setup, ts: seq<Tick>, i: nat)
    requires IsFactRun(s, ts) && i < |ts|
    ensures ts[i].op.ExpandEnd? ==> i > 0 && StartsOrContinues(ts[i - 1].op)
    ensures ts[i].op.ExpandStart? && i > 0 ==> !StartsOrContinues(ts[i - 1].op)
    ensures i > 0 && StartsOrContinues(ts[i - 1].op) ==> ts[i].op.Expand? || ts[i].op.ExpandEnd?
  {
    RunKeepsInv(s, ts, i);
    if i > 0 {
      RunKeepsInv(s, ts, i - 1);
      assert Facts(s, ts[i - 1]) && Between(ts[i - 1].after, ts[i].before);
    }
  }

  /** ExpandEnd comes only directly after Expand or ExpandStart, ExpandStart only when not expanding. */
  lemma ExpandEndFollowsExpand(s: Setup, ts: seq<Tick>, i: nat)
    requires IsRun(s, ts) && i < |ts|
    ensures ts[i].op.ExpandEnd? ==> i > 0 && StartsOrContinues(ts[i - 1].op)
    ensures ts[i].op.ExpandStart? && i > 0 ==> !StartsOrContinues(ts[i - 1].op)
    ensures i > 0 && StartsOrContinues(ts[i - 1].op) ==> ts[i].op.Expand? || ts[i].op.ExpandEnd?
  {
    RunFacts(s, ts);
    ExpandNeighbours(s, ts, i);
  }

  lemma {:induction false} ExpandBlock(s: Setup, ts: seq<Tick>, i: nat, j: nat)
    requires IsFactRun(s, ts) && i < j < |ts| && StartsOrContinues(ts[i].op)
    requires forall k :: i < k < j ==> !ts[k].op.ExpandEnd?
    ensures forall k :: i < k < j ==> ts[k].op.Expand?
    ensures ts[j].op.Expand? || ts[j].op.ExpandEnd?
  {
    if i + 1 == j {
    } else {
      ExpandBlock(s, ts, i, j - 1);
      assert !ts[j - 1].op.ExpandEnd?;
    }
    ExpandNeighbours(s, ts, j);
  }

  /** From an expand start to the first ExpandEnd there is nothing but Expand. */
  lemma OnlyExpandBetween(s: Setup, ts: seq<Tick>, i: nat, j: nat)
    requires IsRun(s, ts) && i < j < |ts| && StartsOrContinues(ts[i].op)
    requires forall k :: i < k < j ==> !ts[k].op.ExpandEnd?
    ensures forall k :: i < k < j ==> ts[k].op.Expand?
    ensures ts[j].op.Expand? || ts[j].op.ExpandEnd?
  {
    RunFacts(s, ts);
    ExpandBlock(s, ts, i, j);
  }

  /** Pending stretched audio means no expansion is under way, over every run. */
  lemma LeftoversMeanNoExpand(s: Setup, ts: seq<Tick>, i: nat)
    requires IsRun(s, ts) && i < |ts|
    ensures ts[i].after.stretched != [] ==> ts[i].after.expands == 0
    ensures ts[i].before.stretched != [] ==> ts[i].before.expands == 0 && ts[i].op.TimeStretchBuffer?
  {
    RunFacts(s, ts);
    RunKeepsInv(s, ts, i);
  }

  // ===== the stretch language =========================================================

  /** The frames of the ticks lo .. hi - 1, one after the other. */
  ghost function Played(ts: seq<Tick>, lo: nat, hi: nat): seq<real>
    requires lo <= hi <= |ts|
  {
    if lo == hi then [] else Played(ts, lo, hi - 1) + ts[hi - 1].frame
  }

  /** One tick with stretched audio left: it plays the first frame of it. */
  lemma PlaysOneFrame(s: Setup, t: Tick, c: nat)
    requires s.channels > 0 && s.Frame() > 0 && Facts(s, t) && |t.before.stretched| == c * s.Frame() && c > 0
    ensures t.op.TimeStretchBuffer? && t.before.stretched == t.frame + t.after.stretched
    ensures |t.after.stretched| == (c - 1) * s.Frame()
  {
    MulLessEq(s.Frame(), 1, c);
    assert (c - 1) * s.Frame() == c * s.Frame() - s.Frame();
  }

  lemma Regroup(played: seq<real>, frame: seq<real>, rest: seq<real>)
    ensures played + (frame + rest) == (played + frame) + rest
  {
  }

  /** After a tick that keeps frames, the ticks up to `j` play exactly the kept samples but the last `left` frames. */
  lemma {:induction false} PlaysKeptFrames(s: Setup, ts: seq<Tick>, i: nat, j: nat, left: nat)
    requires IsFactRun(s, ts) && s.Frame() > 0 && i <= j < |ts|
    requires |ts[i].after.stretched| == (j - i + left) * s.Frame()
    ensures i < j ==> ts[j].op.TimeStretchBuffer?
    ensures |ts[j].after.stretched| == left * s.Frame()
    ensures Played(ts, i + 1, j + 1) + ts[j].after.stretched == ts[i].after.stretched
    decreases j
  {
    if i == j {
      assert Played(ts, i + 1, i + 1) == [];
      assert [] + ts[i].after.stretched == ts[i].after.stretched;
    } else {
      PlaysKeptFrames(s, ts, i, j - 1, left + 1);
      assert Between(ts[j - 1].after, ts[j].before);
      PlaysOneFrame(s, ts[j], left + 1);
      Regroup(Played(ts, i + 1, j), ts[j].frame, ts[j].after.stretched);
    }
  }

  /** When the kept frames have been played, they were all that was kept, and none is left. */
  lemma BlockEnds(s: Setup, ts: seq<Tick>, i: nat, c: nat)
    requires IsFactRun(s, ts) && s.Frame() > 0 && i + c < |ts| && |ts[i].after.stretched| == c * s.Frame()
    ensures ts[i + c].after.stretched == [] && Played(ts, i + 1, i + c + 1) == ts[i].after.stretched
  {
    PlaysKeptFrames(s, ts, i, i + c, 0);
    NothingAdded(Played(ts, i + 1, i + c + 1), ts[i + c].after.stretched);
  }

  lemma NothingAdded(played: seq<real>, rest: seq<real>)
    requires |rest| == 0
    ensures rest == [] && played + rest == played
  {
  }

  lemma BlockOf(s: Setup, ts: seq<Tick>, i: nat, c: nat)
    requires IsFactRun(s, ts) && s.Frame() > 0 && i < |ts| && |ts[i].after.stretched| == c * s.Frame()
    ensures forall j :: i < j <= i + c && j < |ts| ==> ts[j].op.TimeStretchBuffer?
    ensures i + c + 1 < |ts| ==> !ts[i + c + 1].op.TimeStretchBuffer?
  {
    forall j | i < j <= i + c && j < |ts| ensures ts[j].op.TimeStretchBuffer? {
      PlaysKeptFrames(s, ts, i, j, i + c - j);
    }
    if i + c + 1 < |ts| {
      BlockEnds(s, ts, i, c);
      assert Between(ts[i + c].after, ts[i + c + 1].before);
      assert Facts(s, ts[i + c + 1]);
    }
  }

  /**
   The stretch language: an operation that keeps `c` frames (i * channels - 1 for an accelerate of i
   frames, 2 for a preemptive expand, 0 otherwise) is followed by exactly `c` TimeStretchBuffer ticks,
   which play exactly the samples it kept.
   */
  lemma StretchBlocksAreExact(s: Setup, ts: seq<Tick>, i: nat, c: nat)
    requires IsRun(s, ts) && s.Frame() > 0 && i < |ts| && !ts[i].op.TimeStretchBuffer?
    requires c == FramesKept(s, ts[i].op, ts[i].available)
    ensures forall j :: i < j <= i + c && j < |ts| ==> ts[j].op.TimeStretchBuffer?
    ensures i + c < |ts| ==> Played(ts, i + 1, i + c + 1) == ts[i].after.stretched
    ensures i + c + 1 < |ts| ==> !ts[i + c + 1].op.TimeStretchBuffer?
  {
    RunFacts(s, ts);
    assert Facts(s, ts[i]);
    BlockOf(s, ts, i, c);
    if i + c < |ts| {
      BlockEnds(s, ts, i, c);
    }
  }

  /** In mono an accelerate of i frames keeps i - 1. */
  lemma MonoAccelerateKeeps(s: Setup, available: nat, fast: bool)
    requires s.channels == 1 && s.stretching
    ensures FramesKept(s, if fast then FastAccelerate else Operation.Accelerate, available)
         == AccelerateFrames(s.Frame(), available, fast) - 1
  {
  }

  // ===== what the level decides =======================================================

  /** Fewer samples than the low limit for a target of `t` samples: under three quarters of it, or over 85 ms short. */
  predicate IsLow(x: nat, t: nat, perMs: nat) { 4 * (x + 1) <= 3 * t || x + 85 * perMs < t }

  /** At least the high limit: the target, and 20 ms over three quarters of it. */
  predicate IsHigh(x: nat, t: nat, perMs: nat) { x >= t && x >= 3 * t / 4 + 20 * perMs }

  predicate IsVeryHigh(x: nat, t: nat, perMs: nat) { x >= 4 * t && x >= 4 * (3 * t / 4) + 80 * perMs }

  lemma LimitsAre(sampleRate: nat, targetMs: nat, x: nat)
    ensures var perMs := sampleRate / 1000; var t := targetMs * perMs;
      && (x < LowLimit(sampleRate, targetMs) <==> IsLow(x, t, perMs))
      && (x >= HighLimit(sampleRate, targetMs) <==> IsHigh(x, t, perMs))
      && (x >= HighLimit(sampleRate, targetMs) * 4 <==> IsVeryHigh(x, t, perMs))
  {
    var perMs := sampleRate / 1000;
    LimitsOf(targetMs * perMs, perMs, x);
  }

  /** The limits over plain numbers. */
  lemma LimitsOf(t: nat, perMs: nat, x: nat)
    ensures var low := Max(t * 3 / 4, SaturatingSub(t, 85 * perMs)); var high := Max(t, low + 20 * perMs);
      && (x < low <==> IsLow(x, t, perMs))
      && (x >= high <==> IsHigh(x, t, perMs))
      && (x >= high * 4 <==> IsVeryHigh(x, t, perMs))
  {
  }

  /** The decision of a tick on the target delay `targetMs`. */
  function DecisionFor(s: Setup, available: nat, expands: nat, targetMs: nat, level: nat): Decision {
    Decide(s.Frame(), available, false, expands, LowLimit(s.sampleRate, targetMs), HighLimit(s.sampleRate, targetMs), level)
  }

  /**
   Not expanding, with one and a half frames at least: audio is taken out exactly when the level is high
   (faster when very high), added exactly when it is low and three frames are there, and else left alone.
   */
  lemma LevelDecides(s: Setup, available: nat, targetMs: nat, level: nat)
    requires s.Frame() * 3 / 2 <= available && s.Frame() <= available
    ensures var perMs := s.sampleRate / 1000; var t := targetMs * perMs;
      var d := DecisionFor(s, available, 0, targetMs, level); var op := d.op;
      && d.expands == 0 && !d.reset
      && (op.FastAccelerate? <==> IsVeryHigh(level, t, perMs))
      && (op.Accelerate? <==> IsHigh(level, t, perMs) && !IsVeryHigh(level, t, perMs))
      && (op.PreemptiveExpand? <==> IsLow(level, t, perMs) && 3 * s.Frame() <= available)
      && (op.Normal? <==> !IsHigh(level, t, perMs) && !(IsLow(level, t, perMs) && 3 * s.Frame() <= available))
  {
    LimitsAre(s.sampleRate, targetMs, level);
    HighIsNotLow(level, targetMs * (s.sampleRate / 1000), s.sampleRate / 1000);
  }

  lemma HighIsNotLow(x: nat, t: nat, perMs: nat)
    ensures IsVeryHigh(x, t, perMs) ==> IsHigh(x, t, perMs)
    ensures IsHigh(x, t, perMs) ==> !IsLow(x, t, perMs)
  {
  }

  /** Not expanding, with less: half a frame starts an expansion from the audio, less than that one from nothing. */
  lemma ShortAudioExpands(s: Setup, available: nat, targetMs: nat, level: nat)
    requires available < s.Frame() * 3 / 2 || available < s.Frame()
    ensures var d := DecisionFor(s, available, 0, targetMs, level);
      && (d.op.ExpandStart? <==> s.Frame() / 2 <= available < s.Frame() * 3 / 2)
      && (d.op.Expand? <==> !(s.Frame() / 2 <= available < s.Frame() * 3 / 2))
      && d.expands == 1 && !d.reset
  {
  }

  /** An expansion goes on exactly while a frame is missing or the audio held is low, and resets after 600 ticks. */
  lemma ExpansionEnds(s: Setup, available: nat, expands: nat, targetMs: nat, level: nat)
    requires 0 < expands <= U32_MAX
    ensures var perMs := s.sampleRate / 1000; var d := DecisionFor(s, available, expands, targetMs, level);
      && (d.op.Expand? <==> available < s.Frame() || IsLow(available, targetMs * perMs, perMs))
      && (d.op.ExpandEnd? <==> !d.op.Expand?)
      && (d.reset <==> d.op.ExpandEnd? && expands > 600)
      && d.expands == if d.op.ExpandEnd? then 0 else if expands == U32_MAX then U32_MAX else expands + 1
  {
    LimitsAre(s.sampleRate, targetMs, available);
  }

  /** Accelerate uses at least as much audio as it plays, preemptive expand at most as much. */
  lemma StretchingMovesTheLevel(s: Setup, t: Tick)
    requires TickOk(s, t) && s.stretching
    ensures t.op.Accelerate? || t.op.FastAccelerate? ==> t.used >= |t.frame| + |t.after.stretched|
    ensures t.op.PreemptiveExpand? ==> t.used <= |t.frame| + |t.after.stretched|
  {
  }

  /** An accelerate makes the most of the audio: the largest of three, two or one frames whose input is there. */
  lemma AccelerateFramesIsLargest(frame: nat, available: nat, fast: bool, i: nat)
    requires 1 <= i <= 3 && (if fast then 2 * (i * frame) <= available else (3 * (i * frame) + 1) / 2 <= available)
    ensures AccelerateFrames(frame, available, fast) >= i
    ensures var n := AccelerateFrames(frame, available, fast);
      if fast then 2 * (n * frame) <= available else (3 * (n * frame) + 1) / 2 <= available
  {
    if i == 1 {
      assert i * frame == frame;
    } else if i == 2 {
      assert i * frame == 2 * frame;
    } else {
      assert i * frame == 3 * frame;
    }
    var n := AccelerateFrames(frame, available, fast);
    if n == 1 {
      assert n * frame == frame;
    } else if n == 2 {
      assert n * frame == 2 * frame;
    } else {
      assert n * frame == 3 * frame;
    }
  }

  /** How much each operation asks for, with stretching enabled. */
  lemma RequestsAre(s: Setup, available: nat)
    requires s.channels > 0 && s.stretching
    ensures Requested(s, Normal, available) == s.Frame() && Requested(s, PreemptiveExpand, available) == 3 * s.Frame()
    ensures Requested(s, Operation.Expand, available) == Requested(s, TimeStretchBuffer, available) == 0
    ensures Requested(s, Operation.ExpandStart, available) == Requested(s, Operation.ExpandEnd, available) == s.Overlap() * s.channels
  {
  }

  /** Without stretching every operation that would stretch takes one frame. */
  lemma PlainRequestsAre(s: Setup, op: Operation, available: nat)
    requires !s.stretching && (op.Accelerate? || op.FastAccelerate? || op.PreemptiveExpand?)
    ensures Requested(s, op, available) == s.Frame()
  {
  }

  /** A preemptive expand plays its input, or its input with one lag repeated, sample for sample outside the seam. */
  lemma PreemptiveTickPlays(s: Setup, t: Tick)
    requires TickOk(s, t) && s.stretching && t.op.PreemptiveExpand?
    ensures var out, input, ov := t.frame + t.after.stretched, InputOf(s, t), s.Overlap();
      || (out == input && t.used == |out|)
      || exists lag: nat, pos: nat :: pos + lag + ov <= |out| && ov <= lag && t.used + lag == |out| &&
           IsRepeatOf(out, input, lag, pos, ov)
  {
    var out, input, ov := t.frame + t.after.stretched, InputOf(s, t), s.Overlap();
    if lag: nat, pos: nat :| IsRepeat(input, out, t.used, ov, lag, pos) {
      forall i | 0 <= i < |out| ensures i < lag + pos ==> out[i] == input[i] {
        RepeatSamples(input, lag, pos, ov, |out|, i);
      }
      forall i | lag + pos + ov <= i < |out| ensures out[i] == input[i - lag] {
        RepeatSamples(input, lag, pos, ov, |out|, i);
      }
      assert IsRepeatOf(out, input, lag, pos, ov);
    } else {
      assert out == input[..|out|];
      assert |out| == |input|;
      assert input[..|out|] == input;
    }
  }

  /** Up to the seam at `lag + pos` the input, after it the input `lag` samples earlier. */
  ghost predicate IsRepeatOf(out: seq<real>, input: seq<real>, lag: nat, pos: nat, ov: nat) {
    && |out| <= |input|
    && (forall i :: 0 <= i < |out| && i < lag + pos ==> out[i] == input[i])
    && (forall i :: lag + pos + ov <= i < |out| ==> out[i] == input[i - lag])
  }

  /** An accelerate plays the head of its input, or its input with one stretch cut out, sample for sample outside the seam. */
  lemma AccelerateTickPlays(s: Setup, t: Tick)
    requires TickOk(s, t) && s.stretching && (t.op.Accelerate? || t.op.FastAccelerate?)
    ensures var out, input, ov := t.frame + t.after.stretched, InputOf(s, t), s.Overlap();
      || (|out| <= |input| && out == input[..|out|] && t.used == |out|)
      || exists p: nat, cut: nat :: p + ov <= |out| && ov <= cut <= |out| / 2 && t.used == |out| + cut && IsCutOf(out, input, p, cut, ov)
  {
    var out, input, ov := t.frame + t.after.stretched, InputOf(s, t), s.Overlap();
    if p: nat, cut: nat :| IsCut(input, out, t.used, ov, p, cut) {
      forall i | 0 <= i < |out| ensures i < p ==> out[i] == input[i] {
        CutSamples(input, p, cut, ov, |out|, i);
      }
      forall i | p + ov <= i < |out| ensures out[i] == input[i + cut] {
        CutSamples(input, p, cut, ov, |out|, i);
      }
      assert IsCutOf(out, input, p, cut, ov);
    }
  }

  /** Up to the seam at `p` the input, after it the input `cut` samples later. */
  ghost predicate IsCutOf(out: seq<real>, input: seq<real>, p: nat, cut: nat, ov: nat) {
    && |out| + cut <= |input|
    && (forall i :: 0 <= i < |out| && i < p ==> out[i] == input[i])
    && (forall i :: p + ov <= i < |out| ==> out[i] == input[i + cut])
  }

  /** An expand plays noise and uses nothing; a start and an end use one overlap and blend over it, if the frame has room. */
  lemma ExpandTickPlays(s: Setup, t: Tick, i: nat)
    requires s.channels > 0 && TickOk(s, t) && IsExpanding(t.op) && i < s.Frame()
    ensures t.op.Expand? ==> t.used == 0 && t.frame[i] == t.noise[i]
    ensures !t.op.Expand? && s.Overlap() <= s.Frame() ==> t.used == s.Overlap() <= |InputOf(s, t)|
    ensures !t.op.Expand? && s.Overlap() > s.Frame() ==>
      && t.used == (if |InputOf(s, t)| <= s.Frame() then |InputOf(s, t)| else s.Frame())
      && t.frame[i] == if i < t.used then InputOf(s, t)[i] else 0.0
    ensures t.op.ExpandStart? && s.Overlap() <= s.Frame() ==>
      t.frame[i] == if i < s.Overlap() then FadeSample(InputOf(s, t)[i], t.noise[i], i, s.Overlap()) else t.noise[i]
    ensures t.op.ExpandEnd? && s.Overlap() <= s.Frame() ==>
      var start := s.Frame() - s.Overlap();
      t.frame[i] == if i < start then t.noise[i] else FadeSample(t.noise[i], InputOf(s, t)[i - start], i - start, s.Overlap())
  {
    MulLessEq(s.Overlap(), 1, s.channels);
    if s.Overlap() <= s.Frame() && !t.op.Expand? {
      ConcealedSamples(InputOf(s, t), t.noise, PhaseOf(t.op), s.Overlap(), i);
    }
  }

  /** A normal tick with a frame of audio plays the head of the queue. */
  lemma NormalPlaysTheQueue(s: Setup, t: Tick)
    requires TickOk(s, t) && t.op.Normal? && s.Frame() <= |t.before.pending|
    ensures t.before.pending == t.frame + t.after.pending && |t.frame| == s.Frame() == t.used
  {
  }

  // ===== stream accounting ============================================================

  /** The tick had all the audio it asked for. */
  ghost predicate HadEnough(s: Setup, t: Tick) {
    Requested(s, t.op, t.available) <= |t.before.pending|
  }

  /** With enough audio a tick removes exactly `used` samples from the front and changes nothing else. */
  lemma TickTakesFront(s: Setup, t: Tick)
    requires TickOk(s, t) && HadEnough(s, t)
    ensures t.used <= Requested(s, t.op, t.available) <= |t.before.pending|
    ensures t.before.pending == t.before.pending[..t.used] + t.after.pending
    ensures t.after.pending == t.before.pending[t.used..]
    ensures InputOf(s, t) == t.before.pending[..Requested(s, t.op, t.available)]
  {
  }

  /** Without enough, silence is appended first; what is put back afterwards then contains that silence. */
  lemma ShortTickAddsSilence(s: Setup, t: Tick)
    requires TickOk(s, t) && !HadEnough(s, t)
    ensures var n := Requested(s, t.op, t.available);
      t.before.pending + Zeros(n - |t.before.pending|) == (t.before.pending + Zeros(n - |t.before.pending|))[..t.used] + t.after.pending
  {
  }

  /** The tick took `used` samples off the front of the queue and left the rest as it was. */
  ghost predicate TookFront(t: Tick) {
    t.used <= |t.before.pending| && t.after.pending == t.before.pending[t.used..]
  }

  // ===== decided only with enough audio ==============================================

  /** Setups for which the decisions can guarantee their audio: even frames, at least 6400 Hz. */
  ghost predicate Guaranteed(s: Setup) {
    s.channels > 0 && s.sampleRate >= 6400 && s.sampleRate / 100 % 2 == 0
  }

  lemma OverlapFitsHalfFrame(s: Setup)
    requires Guaranteed(s) && s.channels == 1
    ensures s.Overlap() <= s.Frame() / 2
  {
    MonoFrame(s);
  }

  lemma MonoRequests(s: Setup, op: Operation, available: nat)
    requires s.channels == 1
    ensures op.ExpandStart? || op.ExpandEnd? ==> Requested(s, op, available) == s.Overlap()
    ensures op.Accelerate? && s.stretching ==>
      Requested(s, op, available) == AccelerateNeed(AccelerateFrames(s.Frame(), available, false) * s.Frame(), false)
    ensures op.FastAccelerate? && s.stretching ==>
      Requested(s, op, available) == AccelerateNeed(AccelerateFrames(s.Frame(), available, true) * s.Frame(), true)
  {
  }

  /** The accelerate request fits whenever its smallest form does. */
  lemma AccelerateFits(frame: nat, available: nat, fast: bool)
    ensures AccelerateNeed(AccelerateFrames(frame, available, fast) * frame, fast) <= available
       <==> AccelerateNeed(frame, fast) <= available
  {
    var i := AccelerateFrames(frame, available, fast);
    if i == 3 {
      assert i * frame == 3 * frame;
    } else if i == 2 {
      assert i * frame == 2 * frame;
    } else {
      assert i * frame == frame;
    }
  }

  /** The inputs of a decision on which it asks for more than there is: fast, with less than two frames. */
  ghost predicate FastFallsShort(s: Setup, t: Tick) {
    && s.stretching && t.before.stretched == [] && t.before.expands == 0
    && t.level >= 4 * t.high && s.Frame() * 3 / 2 <= t.available < 2 * s.Frame()
  }

  /** Every decision but an accelerate comes with the audio it asks for. */
  lemma PlainDecisionHasEnough(s: Setup, t: Tick)
    requires Guaranteed(s) && s.channels == 1 && DecisionOk(s, t) && !t.op.Accelerate? && !t.op.FastAccelerate?
    ensures Requested(s, t.op, t.available) <= t.available
  {
    OverlapFitsHalfFrame(s);
  }

  lemma EvenNeed(frame: nat)
    requires frame % 2 == 0
    ensures AccelerateNeed(frame, false) == frame * 3 / 2
  {
    var half := frame / 2;
    assert frame == 2 * half;
    assert frame * 3 / 2 == 3 * half;
    assert (3 * frame + 1) / 2 == 3 * half;
  }

  lemma MonoFrame(s: Setup)
    requires s.channels == 1
    ensures s.Frame() == s.sampleRate / 100
  {
  }

  /** An accelerate is decided with one and a half frames at least. */
  lemma AccelerateDecisionFacts(s: Setup, t: Tick)
    requires DecisionOk(s, t) && (t.op.Accelerate? || t.op.FastAccelerate?)
    ensures s.Frame() <= t.available && s.Frame() * 3 / 2 <= t.available && t.before.stretched == [] && t.before.expands == 0
    ensures t.op.FastAccelerate? <==> t.level >= 4 * t.high
  {
  }

  lemma AccelerateDecisionHasEnough(s: Setup, t: Tick)
    requires Guaranteed(s) && s.channels == 1 && DecisionOk(s, t) && t.op.Accelerate?
    ensures Requested(s, t.op, t.available) <= t.available && !FastFallsShort(s, t)
  {
    AccelerateDecisionFacts(s, t);
    MonoFrame(s);
    EvenNeed(s.Frame());
    MonoRequests(s, t.op, t.available);
    AccelerateFits(s.Frame(), t.available, false);
  }

  lemma FastDecisionHasEnoughIff(s: Setup, t: Tick)
    requires Guaranteed(s) && s.channels == 1 && DecisionOk(s, t) && t.op.FastAccelerate?
    ensures Requested(s, t.op, t.available) <= t.available <==> !FastFallsShort(s, t)
  {
    AccelerateDecisionFacts(s, t);
    MonoRequests(s, t.op, t.available);
    AccelerateFits(s.Frame(), t.available, true);
  }

  lemma NotFastNotShort(s: Setup, t: Tick)
    requires DecisionOk(s, t) && !t.op.FastAccelerate?
    ensures !FastFallsShort(s, t)
  {
  }

  /** The audio an operation asks for is available exactly when the decision's inputs are not of that kind. */
  lemma DecidedOnlyWithEnough(s: Setup, t: Tick)
    requires Guaranteed(s) && s.channels == 1 && DecisionOk(s, t)
    ensures Requested(s, t.op, t.available) <= t.available <==> !FastFallsShort(s, t)
  {
    if t.op.FastAccelerate? {
      FastDecisionHasEnoughIff(s, t);
    } else if t.op.Accelerate? {
      AccelerateDecisionHasEnough(s, t);
    } else {
      PlainDecisionHasEnough(s, t);
      NotFastNotShort(s, t);
    }
  }

  /** Without stretching booked, an update keeps at least seven tenths of a level. */
  lemma LevelKeepsMost(level: real, targetMs: nat, size: nat)
    requires 0.0 <= level
    ensures UpdatedLevel(level, FactorFor(targetMs), size, 0) >= 0.7 * level
    ensures UpdatedLevel(level, FactorFor(targetMs), size, 0) <= MaxReal(level, size as real)
  {
    var alpha := EffectiveFactor(level, FactorFor(targetMs), size);
    assert 0.7 <= alpha <= 254.0 / 256.0;
    ProductNonNegative(alpha - 0.7, level);
    ProductNonNegative(1.0 - alpha, size as real);
    SmoothedAtMost(alpha, level, size as real, MaxReal(level, size as real));
  }

  lemma SmoothedAtMost(alpha: real, x: real, y: real, bound: real)
    requires 0.0 <= alpha <= 1.0 && x <= bound && y <= bound
    ensures alpha * x + (1.0 - alpha) * y <= bound
  {
    ProductNonNegative(alpha, bound - x);
    ProductNonNegative(1.0 - alpha, bound - y);
    assert alpha * (bound - x) + (1.0 - alpha) * (bound - y) == bound - (alpha * x + (1.0 - alpha) * y);
  }

  /** FastAccelerate can be decided, at a level the filter yields, with one and a half frames although it asks for two. */
  lemma FastAccelerateCanFallShort(s: Setup, targetMs: nat)
    requires Guaranteed(s) && s.channels == 1 && s.stretching
    ensures var available, low, high := s.Frame() * 3 / 2, LowLimit(s.sampleRate, targetMs), HighLimit(s.sampleRate, targetMs);
      var level := UpdatedLevel((8 * high) as real, FactorFor(targetMs), available, 0).Floor;
      && level >= 4 * high
      && Decide(s.Frame(), available, false, 0, low, high, level).op.FastAccelerate?
      && Requested(s, FastAccelerate, available) > available
  {
    MonoFrame(s);
    LevelKeepsMost((8 * HighLimit(s.sampleRate, targetMs)) as real, targetMs, s.Frame() * 3 / 2);
    MonoRequests(s, FastAccelerate, s.Frame() * 3 / 2);
    AccelerateFits(s.Frame(), s.Frame() * 3 / 2, true);
  }

  /** The level of audio seen by the decision is what is really held, so each packet decodes to its expected length. */
  ghost predicate Measured(t: Tick) {
    t.available == |t.before.pending| + |t.before.stretched|
  }

  // ===== several channels ==============================================================

  /** The thresholds count samples of all channels, but an accelerate then asks for that much per channel. */
  ghost predicate AccelerateFallsShort(s: Setup, t: Tick) {
    && s.stretching && t.before.stretched == [] && t.before.expands == 0
    && t.level >= t.high && s.Frame() * 3 / 2 <= t.available
    && t.available < AccelerateNeed(3 * s.Frame(), t.level >= 4 * t.high) * s.channels
  }

  /** With two channels or more a one- or two-frame accelerate never finds its audio. */
  lemma ShortAccelerateNeverFits(frame: nat, available: nat, fast: bool, channels: nat)
    requires channels >= 2 && frame > 0
    ensures AccelerateNeed(AccelerateFrames(frame, available, fast) * frame, fast) * channels <= available
       <==> AccelerateNeed(3 * frame, fast) * channels <= available
  {
    var i := AccelerateFrames(frame, available, fast);
    var need, full := AccelerateNeed(i * frame, fast), AccelerateNeed(3 * frame, fast);
    MulLessEq(need, 2, channels);
    MulLessEq(full, 2, channels);
    if i == 2 {
      assert i * frame == 2 * frame;
    } else if i == 1 {
      assert i * frame == frame;
    } else {
      assert i * frame == 3 * frame;
    }
  }

  lemma HalfOfEach(perChannel: nat, overlap: nat, channels: nat)
    requires perChannel % 2 == 0 && overlap <= perChannel / 2
    ensures overlap * channels <= perChannel * channels / 2
  {
    var half := perChannel / 2;
    MulLessEq(channels, overlap, half);
    assert perChannel * channels == 2 * (half * channels);
  }

  /** With several channels the overlaps of all channels fit half a frame. */
  lemma OverlapFitsEachChannel(s: Setup)
    requires s.sampleRate >= 6400 && s.sampleRate / 100 % 2 == 0
    ensures s.Overlap() * s.channels <= s.Frame() / 2
  {
    HalfOfEach(s.sampleRate / 100, s.Overlap(), s.channels);
  }

  /**
   Two channels or more, from 6400 Hz: the audio an operation asks for is available exactly when it is
   not an accelerate with less than three frames' worth for every channel (9 frames in stereo).
   */
  lemma ManyChannelsEnoughIff(s: Setup, t: Tick)
    requires Guaranteed(s) && s.channels >= 2 && DecisionOk(s, t)
    ensures Requested(s, t.op, t.available) <= t.available <==> !AccelerateFallsShort(s, t)
  {
    OverlapFitsEachChannel(s);
    assert s.Frame() > 0;
    ShortAccelerateNeverFits(s.Frame(), t.available, false, s.channels);
    ShortAccelerateNeverFits(s.Frame(), t.available, true, s.channels);
  }

  /** In stereo an accelerate has its audio exactly from 9 frames on, a fast one from 12. */
  lemma StereoNeeds(s: Setup, t: Tick)
    requires Guaranteed(s) && s.channels == 2 && s.stretching && DecisionOk(s, t)
    ensures t.op.Accelerate? ==> (Requested(s, t.op, t.available) <= t.available <==> 9 * s.Frame() <= t.available)
    ensures t.op.FastAccelerate? ==> (Requested(s, t.op, t.available) <= t.available <==> 12 * s.Frame() <= t.available)
  {
    ManyChannelsEnoughIff(s, t);
  }

  /** The inputs of a decision on which it asks for more audio than there is, for any number of channels. */
  ghost predicate FallsShort(s: Setup, t: Tick) {
    if s.channels == 1 then FastFallsShort(s, t) else AccelerateFallsShort(s, t)
  }

  /** With packets of their expected length, a tick has its audio exactly when its decision does not fall short. */
  lemma MeasuredTickHasEnoughIff(s: Setup, t: Tick)
    requires Guaranteed(s) && DecisionOk(s, t) && Measured(t)
    ensures HadEnough(s, t) <==> !FallsShort(s, t)
  {
    if s.channels == 1 {
      DecidedOnlyWithEnough(s, t);
    } else {
      ManyChannelsEnoughIff(s, t);
    }
  }

  /** When everything held is used up, the tail of the padding silence becomes the queue. */
  lemma SilenceGoesBack(s: Setup, t: Tick)
    requires TickOk(s, t) && !HadEnough(s, t) && |t.before.pending| <= t.used
    ensures t.after.pending == Zeros(Requested(s, t.op, t.available) - t.used)
  {
  }

  lemma StereoThreeFrames(s: Setup)
    requires s.channels == 2 && s.Frame() > 0 && s.stretching
    ensures Requested(s, Operation.Accelerate, 3 * s.Frame()) == 6 * s.Frame()
    ensures Produced(s, Operation.Accelerate, 3 * s.Frame()) == 4 * s.Frame()
  {
  }

  lemma StereoFrameIsShort(s: Setup, targetMs: nat)
    requires s.channels == 2 && s.sampleRate >= 6400
    ensures 3 * s.Frame() < 4 * HighLimit(s.sampleRate, targetMs)
  {
    assert s.Frame() == 2 * (s.sampleRate / 100);
    assert s.sampleRate / 100 <= 10 * (s.sampleRate / 1000) + 9;
  }

  /** In every stereo setup, for every target delay, three frames held at a level the filter yields fall short. */
  lemma StereoCanFallShort(s: Setup, targetMs: nat)
    requires s.channels == 2 && s.sampleRate >= 6400 && s.stretching
    ensures var low, high := LowLimit(s.sampleRate, targetMs), HighLimit(s.sampleRate, targetMs);
      var level := UpdatedLevel((2 * high) as real, FactorFor(targetMs), 3 * s.Frame(), 0).Floor;
      && Decide(s.Frame(), 3 * s.Frame(), false, 0, low, high, level).op.Accelerate?
      && Requested(s, Operation.Accelerate, 3 * s.Frame()) > 3 * s.Frame()
  {
    assert s.Frame() == 2 * (s.sampleRate / 100) > 0;
    StereoThreeFrames(s);
    StereoFrameIsShort(s, targetMs);
    LevelKeepsMost((2 * HighLimit(s.sampleRate, targetMs)) as real, targetMs, 3 * s.Frame());
  }

  /** The same at any rate from 1000 Hz on, with the level given. */
  lemma StereoLevelFallsShort(s: Setup, targetMs: nat)
    requires s.channels == 2 && s.Frame() > 0 && s.sampleRate >= 1000 && s.stretching
    ensures var low, high := LowLimit(s.sampleRate, targetMs), HighLimit(s.sampleRate, targetMs);
      && Decide(s.Frame(), 3 * s.Frame(), false, 0, low, high, high).op.Accelerate?
      && Requested(s, Operation.Accelerate, 3 * s.Frame()) > 3 * s.Frame()
  {
    StereoThreeFrames(s);
    assert HighLimit(s.sampleRate, targetMs) >= 20 * (s.sampleRate / 1000);
  }

  /** Such a tick uses up all three frames and leaves a queue of nothing but silence, up to two frames of it. */
  lemma StereoQueueTurnsSilent(s: Setup, t: Tick)
    requires s.channels == 2 && s.Frame() > 0 && s.stretching && TickOk(s, t) && t.op.Accelerate?
    requires t.available == |t.before.pending| == 3 * s.Frame()
    ensures 4 * s.Frame() <= t.used <= 6 * s.Frame() && t.after.pending == Zeros(6 * s.Frame() - t.used)
  {
    StereoThreeFrames(s);
    assert t.used >= |t.frame + t.after.stretched|;
    SilenceGoesBack(s, t);
  }
}
