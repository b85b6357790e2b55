/** The video jitter buffer (videocall-codecs/src/jitter_buffer.rs): step functions and the class that refines them. */
module VideoJitterBuffer {
  import opened JitterEstimation
  import opened Options

  const MIN_PLAYOUT_DELAY_MS: real := 10.0
  const MAX_PLAYOUT_DELAY_MS: real := 500.0
  const JITTER_MULTIPLIER: real := 3.0
  const DELAY_SMOOTHING_FACTOR: real := 0.99
  const MAX_BUFFER_SIZE: nat := 200
  const MAX_CONSECUTIVE_OLD_FRAMES: nat := 300
  const STREAM_RESTART_BACKTRACK_THRESHOLD: nat := 30

  datatype FrameType = KeyFrame | DeltaFrame

  datatype VideoFrame = VideoFrame(sequenceNumber: nat, frameType: FrameType, data: seq<bv8>)

  datatype FrameBuffer = FrameBuffer(frame: VideoFrame, arrivalMs: nat) {
    predicate IsKeyframe() { frame.frameType.KeyFrame? }
  }

  type Frames = map<nat, FrameBuffer>

  datatype Buffer = Buffer(
    frames: Frames,
    last: Option<nat>,
    estimate: Estimate,
    delayMs: real,
    dropped: nat,
    oldFrames: nat)

  const FRESH: Buffer := Buffer(map[], None, INITIAL, MIN_PLAYOUT_DELAY_MS, 0, 0)

  // ----- choosing the next frame ------------------------------------------------

  /** `k` is the lowest buffered keyframe at or above `lo`. */
  ghost predicate IsFirstKeyframe(frames: Frames, lo: nat, k: nat) {
    && k in frames && lo <= k && frames[k].IsKeyframe()
    && forall j :: j in frames && lo <= j && frames[j].IsKeyframe() ==> k <= j
  }

  ghost predicate HasKeyframe(frames: Frames, lo: nat) {
    exists k :: k in frames && lo <= k && frames[k].IsKeyframe()
  }

  lemma {:induction false} FirstKeyframeExists(frames: Frames, lo: nat, k: nat)
    requires k in frames && lo <= k && frames[k].IsKeyframe()
    ensures exists j :: IsFirstKeyframe(frames, lo, j)
    decreases k
  {
    if j :| j in frames && lo <= j < k && frames[j].IsKeyframe() {
      FirstKeyframeExists(frames, lo, j);
    } else {
      assert IsFirstKeyframe(frames, lo, k);
    }
  }

  ghost function FirstKeyframe(frames: Frames, lo: nat): (r: Option<nat>)
    ensures r.Some? ==> IsFirstKeyframe(frames, lo, r.value)
    ensures r.None? ==> !HasKeyframe(frames, lo)
  {
    if HasKeyframe(frames, lo) then
      var k :| k in frames && lo <= k && frames[k].IsKeyframe();
      FirstKeyframeExists(frames, lo, k);
      var j :| IsFirstKeyframe(frames, lo, j);
      Some(j)
    else None
  }

  /** The next frame in sequence; after a gap or at the start, the next keyframe. */
  ghost function NextDecodable(b: Buffer): (r: Option<nat>)
    ensures r.Some? ==> r.value in b.frames
  {
    match b.last
    case Some(l) => if l + 1 in b.frames then Some(l + 1) else FirstKeyframe(b.frames, l + 2)
    case None => FirstKeyframe(b.frames, 0)
  }

  ghost predicate IsReady(b: Buffer, k: nat, nowMs: nat)
    requires k in b.frames
  {
    (nowMs - b.frames[k].arrivalMs) as real >= b.delayMs
  }

  // ----- step functions -----------------------------------------------------------

  ghost function DropBefore(b: Buffer, k: nat): Buffer {
    var stale := set j | j in b.frames && j < k;
    b.(frames := b.frames - stale, dropped := b.dropped + |stale|)
  }

  ghost predicate IsRecovery(b: Buffer, k: nat) {
    match b.last
    case None => true
    case Some(l) => k > l + 1
  }

  /** Removes frame `k` for decoding; jumping to a keyframe drops everything before it. */
  ghost function Release(b: Buffer, k: nat): (r: Buffer)
    requires k in b.frames
    ensures |r.frames| < |b.frames|
  {
    var taken := b.(frames := b.frames - {k});
    assert taken.frames.Keys == b.frames.Keys - {k};
    var cleaned := if b.frames[k].IsKeyframe() && IsRecovery(b, k) then DropBefore(taken, k) else taken;
    SubmapSize(cleaned.frames, taken.frames);
    cleaned.(last := Some(k))
  }

  lemma SubmapSize(small: Frames, big: Frames)
    requires small.Keys <= big.Keys
    ensures |small| <= |big|
  {
    SubsetSize(small.Keys, big.Keys);
  }

  lemma {:induction false} SubsetSize(a: set<nat>, b: set<nat>)
    requires a <= b
    ensures |a| <= |b|
  {
    if a == {} {
    } else {
      var x :| x in a;
      SubsetSize(a - {x}, b - {x});
    }
  }

  /** Releases ready frames until none is left: the new buffer and the frames sent to the decoder. */
  ghost function Polled(b: Buffer, nowMs: nat): (Buffer, seq<FrameBuffer>)
    decreases |b.frames|
  {
    match NextDecodable(b)
    case None => (b, [])
    case Some(k) =>
      if IsReady(b, k, nowMs) then
        var (rest, out) := Polled(Release(b, k), nowMs);
        (rest, [b.frames[k]] + out)
      else (b, [])
  }

  /** Loop state of a poll: after `sent`, polling `current` leads to the goal. */
  ghost predicate LeadsTo(goal: (Buffer, seq<FrameBuffer>), nowMs: nat, current: Buffer, sent: seq<FrameBuffer>) {
    goal.0 == Polled(current, nowMs).0 && goal.1 == sent + Polled(current, nowMs).1
  }

  /** A ready frame is the first of a poll; the rest is the poll of what is left. */
  lemma PollUnfolds(b: Buffer, nowMs: nat, k: nat)
    requires NextDecodable(b) == Some(k) && IsReady(b, k, nowMs)
    ensures Polled(b, nowMs).0 == Polled(Release(b, k), nowMs).0
    ensures Polled(b, nowMs).1 == [b.frames[k]] + Polled(Release(b, k), nowMs).1
  {
  }

  /** One frame between what was sent before and what comes after. */
  lemma MoveOne(before: seq<FrameBuffer>, f: FrameBuffer, after: seq<FrameBuffer>)
    ensures before + ([f] + after) == (before + [f]) + after
  {
  }

  lemma PollContinues(goal: (Buffer, seq<FrameBuffer>), nowMs: nat, current: Buffer, sent: seq<FrameBuffer>, k: nat)
    requires LeadsTo(goal, nowMs, current, sent)
    requires NextDecodable(current) == Some(k) && IsReady(current, k, nowMs)
    ensures LeadsTo(goal, nowMs, Release(current, k), sent + [current.frames[k]])
  {
    PollUnfolds(current, nowMs, k);
    MoveOne(sent, current.frames[k], Polled(Release(current, k), nowMs).1);
  }

  /** No decodable frame is ready. */
  ghost predicate IsSettled(b: Buffer, nowMs: nat) {
    var next := NextDecodable(b); next.None? || !IsReady(b, next.value, nowMs)
  }

  lemma PollEnds(goal: (Buffer, seq<FrameBuffer>), nowMs: nat, current: Buffer, sent: seq<FrameBuffer>)
    requires LeadsTo(goal, nowMs, current, sent) && IsSettled(current, nowMs)
    ensures goal == (current, sent)
  {
    assert Polled(current, nowMs) == (current, []);
    assert sent + [] == sent;
  }

  ghost function DroppedAll(b: Buffer): Buffer {
    b.(frames := map[], dropped := b.dropped + |b.frames|)
  }

  ghost function Flushed(b: Buffer): Buffer {
    DroppedAll(b).(last := None, oldFrames := 0, estimate := INITIAL)
  }

  function Clamp(x: real, lo: real, hi: real): real {
    if x < lo then lo else if x > hi then hi else x
  }

  function SmoothedDelay(delayMs: real, jitter: real): real {
    delayMs * DELAY_SMOOTHING_FACTOR
    + Clamp(jitter * JITTER_MULTIPLIER, MIN_PLAYOUT_DELAY_MS, MAX_PLAYOUT_DELAY_MS) * (1.0 - DELAY_SMOOTHING_FACTOR)
  }

  /** What one call did: new buffer, frames decoded, whether it flushed, accepted, overwrote. */
  datatype Outcome = Outcome(buffer: Buffer, out: seq<FrameBuffer>, flushed: bool, accepted: bool, overwrote: bool)

  predicate IsOld(last: Option<nat>, sequence: nat) {
    last.Some? && sequence <= last.value
  }

  /** A keyframe far behind the last decoded frame: the sender restarted. */
  predicate IsRestart(last: Option<nat>, frame: VideoFrame) {
    && IsOld(last, frame.sequenceNumber) && frame.frameType.KeyFrame?
    && last.value - frame.sequenceNumber > STREAM_RESTART_BACKTRACK_THRESHOLD
  }

  ghost function InsertedOld(b: Buffer, frame: VideoFrame): Outcome {
    var counted := b.(oldFrames := b.oldFrames + 1);
    if IsRestart(b.last, frame) then Outcome(Flushed(b), [], true, false, false)
    else if counted.oldFrames > MAX_CONSECUTIVE_OLD_FRAMES then Outcome(Flushed(counted), [], true, false, false)
    else Outcome(counted, [], false, false, false)
  }

  /** The buffer with the frame in it and the estimate and delay updated. */
  ghost function Buffered(b: Buffer, frame: VideoFrame, nowMs: nat): Buffer {
    var estimate := Updated(b.estimate, frame.sequenceNumber, nowMs);
    b.(estimate := estimate,
       delayMs := SmoothedDelay(b.delayMs, estimate.jitter),
       frames := b.frames[frame.sequenceNumber := FrameBuffer(frame, nowMs)])
  }

  /** Stores a frame that is neither old nor rejected, then polls. */
  ghost function Stored(b: Buffer, frame: VideoFrame, nowMs: nat): Outcome {
    var (polled, out) := Polled(Buffered(b, frame, nowMs), nowMs);
    Outcome(polled, out, false, true, frame.sequenceNumber in b.frames)
  }

  ghost function Inserted(b: Buffer, frame: VideoFrame, nowMs: nat): Outcome {
    if IsOld(b.last, frame.sequenceNumber) then InsertedOld(b, frame)
    else
      var b1 := b.(oldFrames := 0);
      if |b1.frames| < MAX_BUFFER_SIZE then Stored(b1, frame, nowMs)
      else if frame.frameType.KeyFrame? then Stored(DroppedAll(b1), frame, nowMs)
      else Outcome(b1, [], false, false, false)
  }

  // ----- the class ------------------------------------------------------------------

  /** No buffered frame and no estimate lies after `nowMs` (the clock does not run backwards). */
  ghost predicate ClockOk(b: Buffer, nowMs: nat) {
    && (forall k :: k in b.frames ==> b.frames[k].arrivalMs <= nowMs)
    && b.estimate.lastArrivalMs <= nowMs
  }

  class JitterBuffer {
    var bufferedFrames: Frames
    var lastDecoded: Option<nat>
    var estimator: JitterEstimator
    var targetPlayoutDelayMs: real
    var droppedFramesCount: nat
    var numConsecutiveOldFrames: nat
    /** Frames handed to the decoder, in order. */
    var decoded: seq<FrameBuffer>

    ghost function View(): Buffer
      reads this, estimator
    {
      Buffer(bufferedFrames, lastDecoded, estimator.View(), targetPlayoutDelayMs, droppedFramesCount, numConsecutiveOldFrames)
    }

    constructor ()
      ensures View() == FRESH && decoded == [] && fresh(estimator)
    {
      estimator := new JitterEstimator();
      bufferedFrames, lastDecoded, targetPlayoutDelayMs := map[], None, MIN_PLAYOUT_DELAY_MS;
      droppedFramesCount, numConsecutiveOldFrames, decoded := 0, 0, [];
    }

    method InsertFrame(frame: VideoFrame, arrivalMs: nat)
      requires ClockOk(View(), arrivalMs)
      modifies this, estimator
      ensures estimator == old(estimator) || fresh(estimator)
      ensures var r := Inserted(old(View()), frame, arrivalMs);
        View() == r.buffer && decoded == old(decoded) + r.out
    {
      var sequence := frame.sequenceNumber;
      if lastDecoded.Some? && sequence <= lastDecoded.value {
        if frame.frameType.KeyFrame? && lastDecoded.value - sequence > STREAM_RESTART_BACKTRACK_THRESHOLD {
          Flush();
        } else {
          numConsecutiveOldFrames := numConsecutiveOldFrames + 1;
          if numConsecutiveOldFrames > MAX_CONSECUTIVE_OLD_FRAMES {
            Flush();
          }
        }
        return;
      }
      numConsecutiveOldFrames := 0;
      if |bufferedFrames| >= MAX_BUFFER_SIZE {
        if frame.frameType.KeyFrame? {
          DropAllFrames();
        } else {
          return;
        }
      }
      StoreFrame(frame, arrivalMs);
    }

    /** The accepting end of `InsertFrame`: estimate, delay, buffer, poll. */
    method StoreFrame(frame: VideoFrame, arrivalMs: nat)
      requires ClockOk(View(), arrivalMs)
      modifies this, estimator
      ensures estimator == old(estimator)
      ensures var r := Stored(old(View()), frame, arrivalMs);
        View() == r.buffer && decoded == old(decoded) + r.out
    {
      estimator.UpdateEstimate(frame.sequenceNumber, arrivalMs);
      UpdateTargetPlayoutDelay();
      bufferedFrames := bufferedFrames[frame.sequenceNumber := FrameBuffer(frame, arrivalMs)];
      FindAndMoveContinuousFrames(arrivalMs);
    }

    method UpdateTargetPlayoutDelay()
      modifies this`targetPlayoutDelayMs
      ensures targetPlayoutDelayMs == SmoothedDelay(old(targetPlayoutDelayMs), estimator.jitter)
    {
      var rawTarget := estimator.jitter * JITTER_MULTIPLIER;
      var clampedTarget := Clamp(rawTarget, MIN_PLAYOUT_DELAY_MS, MAX_PLAYOUT_DELAY_MS);
      targetPlayoutDelayMs := targetPlayoutDelayMs * DELAY_SMOOTHING_FACTOR + clampedTarget * (1.0 - DELAY_SMOOTHING_FACTOR);
    }

    /** First keyframe at or above `lo` in key order. */
    method FindKeyframe(lo: nat) returns (r: Option<nat>)
      ensures r == FirstKeyframe(bufferedFrames, lo)
    {
      r := None;
      var keys := bufferedFrames.Keys;
      while keys != {}
        invariant keys <= bufferedFrames.Keys
        invariant r.Some? ==> r.value in bufferedFrames && lo <= r.value && bufferedFrames[r.value].IsKeyframe()
        invariant forall j :: j in bufferedFrames && j !in keys && lo <= j && bufferedFrames[j].IsKeyframe() ==>
                    r.Some? && r.value <= j
        decreases keys
      {
        var k :| k in keys;
        keys := keys - {k};
        if lo <= k && bufferedFrames[k].IsKeyframe() && (r.None? || k < r.value) {
          r := Some(k);
        }
      }
    }

    method FindAndMoveContinuousFrames(nowMs: nat)
      requires forall k :: k in bufferedFrames ==> bufferedFrames[k].arrivalMs <= nowMs
      modifies this
      ensures estimator == old(estimator)
      ensures var (b, out) := Polled(old(View()), nowMs);
        View() == b && decoded == old(decoded) + out
    {
      ghost var goal := (Polled(View(), nowMs).0, decoded + Polled(View(), nowMs).1);
      var moved := true;
      while moved
        invariant estimator == old(estimator)
        invariant forall k :: k in bufferedFrames ==> bufferedFrames[k].arrivalMs <= nowMs
        invariant if moved then LeadsTo(goal, nowMs, View(), decoded) else goal == (View(), decoded)
        decreases |bufferedFrames|, moved
      {
        moved := PollOnce(nowMs, goal);
      }
    }

    /** One round of the release loop. */
    method PollOnce(nowMs: nat, ghost goal: (Buffer, seq<FrameBuffer>)) returns (moved: bool)
      requires forall k :: k in bufferedFrames ==> bufferedFrames[k].arrivalMs <= nowMs
      requires LeadsTo(goal, nowMs, View(), decoded)
      modifies this`bufferedFrames, this`droppedFramesCount, this`lastDecoded, this`decoded
      ensures forall k :: k in bufferedFrames ==> bufferedFrames[k].arrivalMs <= nowMs
      ensures moved ==> |bufferedFrames| < |old(bufferedFrames)| && LeadsTo(goal, nowMs, View(), decoded)
      ensures !moved ==> bufferedFrames == old(bufferedFrames) && goal == (View(), decoded)
    {
      ghost var current, sent, key := View(), decoded, 0;
      moved, key := MoveNext(nowMs);
      if moved {
        PollContinues(goal, nowMs, current, sent, key);
      } else {
        PollEnds(goal, nowMs, current, sent);
      }
    }

    /** Sends the next decodable frame to the decoder if it has waited long enough. */
    method MoveNext(nowMs: nat) returns (moved: bool, ghost key: nat)
      requires forall k :: k in bufferedFrames ==> bufferedFrames[k].arrivalMs <= nowMs
      modifies this`bufferedFrames, this`droppedFramesCount, this`lastDecoded, this`decoded
      ensures forall k :: k in bufferedFrames ==> bufferedFrames[k].arrivalMs <= nowMs
      ensures moved ==>
        && NextDecodable(old(View())) == Some(key) && IsReady(old(View()), key, nowMs)
        && View() == Release(old(View()), key) && decoded == old(decoded) + [old(bufferedFrames)[key]]
      ensures !moved ==> View() == old(View()) && decoded == old(decoded) && IsSettled(View(), nowMs)
    {
      moved, key := false, 0;
      var next := SeekNext();
      if next.Some? {
        var frame := bufferedFrames[next.value];
        var timeInBufferMs: nat := nowMs - frame.arrivalMs;
        if timeInBufferMs as real >= targetPlayoutDelayMs {
          ReleaseFrame(next.value);
          decoded, moved, key := decoded + [frame], true, next.value;
        }
      }
    }

    method SeekNext() returns (next: Option<nat>)
      ensures next == NextDecodable(View())
    {
      if lastDecoded.Some? {
        var nextContinuous := lastDecoded.value + 1;
        if nextContinuous in bufferedFrames {
          next := Some(nextContinuous);
        } else {
          next := FindKeyframe(nextContinuous + 1);
        }
      } else {
        next := FindKeyframe(0);
      }
    }

    /** Takes `key` out of the buffer and drops what a recovery makes stale. */
    method ReleaseFrame(key: nat)
      requires key in bufferedFrames
      modifies this`bufferedFrames, this`droppedFramesCount, this`lastDecoded
      ensures View() == Release(old(View()), key)
      ensures bufferedFrames.Keys <= old(bufferedFrames).Keys
      ensures forall k :: k in bufferedFrames ==> bufferedFrames[k] == old(bufferedFrames)[k]
    {
      var frame := bufferedFrames[key];
      bufferedFrames := bufferedFrames - {key};
      if frame.IsKeyframe() {
        var isFirstFrame := lastDecoded.None?;
        var isGapRecovery := lastDecoded.Some? && key > lastDecoded.value + 1;
        if isFirstFrame || isGapRecovery {
          DropFramesBefore(key);
        }
      }
      lastDecoded := Some(key);
    }

    method DropFramesBefore(sequence: nat)
      modifies this`bufferedFrames, this`droppedFramesCount
      ensures View() == DropBefore(old(View()), sequence)
    {
      var keysToDrop := set k | k in bufferedFrames && k < sequence;
      droppedFramesCount := droppedFramesCount + |keysToDrop|;
      bufferedFrames := bufferedFrames - keysToDrop;
    }

    method DropAllFrames()
      modifies this`bufferedFrames, this`droppedFramesCount
      ensures View() == DroppedAll(old(View()))
    {
      var numDropped := |bufferedFrames|;
      bufferedFrames := map[];
      droppedFramesCount := droppedFramesCount + numDropped;
    }

    method Flush()
      modifies this
      ensures fresh(estimator) && decoded == old(decoded)
      ensures View() == Flushed(old(View()))
    {
      DropAllFrames();
      lastDecoded, numConsecutiveOldFrames := None, 0;
      estimator := new JitterEstimator();
    }
  }
}
