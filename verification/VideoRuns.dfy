/** Whole runs of the video jitter buffer: decodability, conservation, fixpoints, old frames, jitter. */
module VideoRuns {
  import opened Numbers
  import opened Options
  import opened JitterEstimation
  import opened VideoJitterBuffer

  // ----- runs -----------------------------------------------------------------------

  datatype Event = InsertFrame(frame: VideoFrame, atMs: nat) | Poll(atMs: nat) | Flush | DropAll

  ghost function Step(b: Buffer, event: Event): Outcome {
    match event
    case InsertFrame(frame, at) => Inserted(b, frame, at)
    case Poll(at) => var (rest, out) := Polled(b, at); Outcome(rest, out, false, false, false)
    case Flush => Outcome(Flushed(b), [], true, false, false)
    case DropAll => Outcome(DroppedAll(b), [], false, false, false)
  }

  /** `epochs` are the frames sent to the decoder between flushes; the last one is open. */
  datatype History = History(buffer: Buffer, epochs: seq<seq<FrameBuffer>>, accepted: nat, overwritten: nat)

  ghost function Open(h: History): seq<FrameBuffer>
    requires |h.epochs| > 0
  {
    h.epochs[|h.epochs| - 1]
  }

  ghost function Advance(h: History, event: Event): (r: History)
    requires |h.epochs| > 0
    ensures |r.epochs| > 0
  {
    var step := Step(h.buffer, event);
    var epochs := h.epochs[..|h.epochs| - 1] + [Open(h) + step.out];
    History(step.buffer,
            if step.flushed then epochs + [[]] else epochs,
            h.accepted + (if step.accepted then 1 else 0),
            h.overwritten + (if step.overwrote then 1 else 0))
  }

  ghost function Run(events: seq<Event>): (h: History)
    ensures |h.epochs| > 0
  {
    if events == [] then History(FRESH, [[]], 0, 0)
    else Advance(Run(events[..|events| - 1]), events[|events| - 1])
  }

  // ----- what is proved ---------------------------------------------------------------

  function Seq(f: FrameBuffer): nat { f.frame.sequenceNumber }

  /** Strictly increasing, and every delta frame directly follows its predecessor in sequence. */
  ghost predicate Decodable(epoch: seq<FrameBuffer>) {
    && (forall t :: 0 < t < |epoch| ==> Seq(epoch[t - 1]) < Seq(epoch[t]))
    && (forall t :: 0 <= t < |epoch| && !epoch[t].IsKeyframe() ==> 0 < t && Seq(epoch[t]) == Seq(epoch[t - 1]) + 1)
  }

  ghost predicate KeysOk(b: Buffer) {
    forall k :: k in b.frames ==> Seq(b.frames[k]) == k && (b.last.Some? ==> b.last.value < k)
  }

  /** The open epoch ends at the last decoded sequence number. */
  ghost predicate Linked(b: Buffer, epoch: seq<FrameBuffer>) {
    match b.last
    case None => epoch == []
    case Some(l) => |epoch| > 0 && Seq(epoch[|epoch| - 1]) == l
  }

  ghost predicate Good(b: Buffer, epoch: seq<FrameBuffer>) {
    KeysOk(b) && Linked(b, epoch) && Decodable(epoch)
  }

  ghost predicate BoundsOk(b: Buffer) {
    && |b.frames| <= 200
    && 10.0 <= b.delayMs <= 500.0
    && 0.0 <= b.estimate.jitter
    && b.oldFrames <= 300
  }

  // ----- one release, one poll ----------------------------------------------------------

  lemma DecodableAppend(epoch: seq<FrameBuffer>, f: FrameBuffer)
    requires Decodable(epoch)
    requires |epoch| > 0 ==> Seq(epoch[|epoch| - 1]) < Seq(f)
    requires f.IsKeyframe() || (|epoch| > 0 && Seq(f) == Seq(epoch[|epoch| - 1]) + 1)
    ensures Decodable(epoch + [f])
  {
    var longer := epoch + [f];
    forall t | 0 <= t < |longer|
      ensures 0 < t ==> Seq(longer[t - 1]) < Seq(longer[t])
      ensures !longer[t].IsKeyframe() ==> 0 < t && Seq(longer[t]) == Seq(longer[t - 1]) + 1
    {
      if t < |epoch| {
        assert longer[t] == epoch[t];
        if 0 < t { assert longer[t - 1] == epoch[t - 1]; }
      }
    }
  }

  /** A frame released by recovery leaves only later ones: the earlier are dropped. */
  lemma RecoveryKeysOk(b: Buffer, k: nat)
    requires KeysOk(b) && k in b.frames && b.frames[k].IsKeyframe() && IsRecovery(b, k)
    ensures KeysOk(Release(b, k))
  {
    var taken := b.frames - {k};
    var stale := set j | j in taken && j < k;
    forall j | j in taken - stale ensures Seq(b.frames[j]) == j && k < j {
    }
    assert Release(b, k).frames == taken - stale;
  }

  /** The frame next in sequence leaves only later ones: all keys exceed the last decoded number. */
  lemma NextKeysOk(b: Buffer, k: nat)
    requires KeysOk(b) && k in b.frames && b.last == Some(k - 1)
    ensures KeysOk(Release(b, k))
  {
    assert Release(b, k).frames == b.frames - {k};
  }

  lemma ReleaseKeysOk(b: Buffer, k: nat)
    requires KeysOk(b) && NextDecodable(b) == Some(k)
    ensures KeysOk(Release(b, k))
  {
    if b.last.Some? && b.last.value + 1 in b.frames {
      NextKeysOk(b, k);
    } else {
      RecoveryKeysOk(b, k);
    }
  }

  /** The released frame fits the epoch: later than its end, and a keyframe or directly next. */
  lemma ReleasedFits(b: Buffer, k: nat, epoch: seq<FrameBuffer>)
    requires KeysOk(b) && Linked(b, epoch) && NextDecodable(b) == Some(k)
    ensures |epoch| > 0 ==> Seq(epoch[|epoch| - 1]) < Seq(b.frames[k])
    ensures b.frames[k].IsKeyframe() || (|epoch| > 0 && Seq(b.frames[k]) == Seq(epoch[|epoch| - 1]) + 1)
  {
  }

  lemma ReleaseKeeps(b: Buffer, k: nat, epoch: seq<FrameBuffer>)
    requires Good(b, epoch) && NextDecodable(b) == Some(k)
    ensures Good(Release(b, k), epoch + [b.frames[k]])
  {
    ReleaseKeysOk(b, k);
    ReleasedFits(b, k, epoch);
    DecodableAppend(epoch, b.frames[k]);
    assert Release(b, k).last == Some(k);
  }

  lemma ReleaseCounts(b: Buffer, k: nat)
    requires k in b.frames
    ensures var r := Release(b, k);
      && |r.frames| + 1 + r.dropped == |b.frames| + b.dropped
      && r.delayMs == b.delayMs && r.estimate == b.estimate && r.oldFrames == b.oldFrames
      && (forall j :: j in r.frames ==> j in b.frames && r.frames[j] == b.frames[j])
  {
    var taken := b.frames - {k};
    assert taken.Keys == b.frames.Keys - {k};
    var stale := set j | j in taken && j < k;
    assert (taken - stale).Keys == taken.Keys - stale && stale <= taken.Keys;
  }

  lemma PollStops(b: Buffer, nowMs: nat, epoch: seq<FrameBuffer>)
    requires var next := NextDecodable(b); next.None? || !IsReady(b, next.value, nowMs)
    ensures Polled(b, nowMs).0 == b && epoch + Polled(b, nowMs).1 == epoch
  {
    assert Polled(b, nowMs).1 == [];
  }

  lemma {:induction false} PollKeeps(b: Buffer, nowMs: nat, epoch: seq<FrameBuffer>)
    requires Good(b, epoch)
    ensures Good(Polled(b, nowMs).0, epoch + Polled(b, nowMs).1)
    decreases |b.frames|
  {
    var next := NextDecodable(b);
    if next.None? || !IsReady(b, next.value, nowMs) {
      PollStops(b, nowMs, epoch);
    } else {
      var k := next.value;
      ReleaseKeeps(b, k, epoch);
      PollKeeps(Release(b, k), nowMs, epoch + [b.frames[k]]);
      PollUnfolds(b, nowMs, k);
      MoveOne(epoch, b.frames[k], Polled(Release(b, k), nowMs).1);
    }
  }

  /** A poll moves frames out of the buffer: each is decoded or counted as dropped, nothing else changes. */
  lemma {:induction false} PollCounts(b: Buffer, nowMs: nat)
    ensures var (rest, out) := Polled(b, nowMs);
      && |rest.frames| + |out| + rest.dropped == |b.frames| + b.dropped
      && rest.delayMs == b.delayMs && rest.estimate == b.estimate && rest.oldFrames == b.oldFrames
      && (forall j :: j in rest.frames ==> j in b.frames && rest.frames[j] == b.frames[j])
      && (forall f :: f in out ==> f in b.frames.Values)
    decreases |b.frames|
  {
    var next := NextDecodable(b);
    if next.None? || !IsReady(b, next.value, nowMs) {
    } else {
      var k := next.value;
      ReleaseCounts(b, k);
      PollCounts(Release(b, k), nowMs);
      assert b.frames[k] in b.frames.Values;
      forall f | f in Release(b, k).frames.Values ensures f in b.frames.Values {
        var j :| j in Release(b, k).frames && Release(b, k).frames[j] == f;
        assert b.frames[j] == f;
      }
    }
  }

  /** Polling again at the same time changes nothing and decodes nothing. */
  lemma {:induction false} PollIsFixpoint(b: Buffer, nowMs: nat)
    ensures var rest := Polled(b, nowMs).0; Polled(rest, nowMs) == (rest, [])
    decreases |b.frames|
  {
    var next := NextDecodable(b);
    if next.None? || !IsReady(b, next.value, nowMs) {
    } else {
      PollIsFixpoint(Release(b, next.value), nowMs);
    }
  }

  // ----- a poll leaves nothing behind ------------------------------------------------------

  /** Decoding may go on with `k`: the next in sequence, or past a gap (or at the start) the lowest keyframe. */
  ghost predicate MayStart(b: Buffer, k: nat) {
    && k in b.frames
    && match b.last
       case Some(l) =>
         k == l + 1 ||
         (l + 1 !in b.frames && l + 1 < k && b.frames[k].IsKeyframe() &&
          forall j :: j in b.frames && l + 1 < j < k ==> !b.frames[j].IsKeyframe())
       case None => b.frames[k].IsKeyframe() && forall j :: j in b.frames && j < k ==> !b.frames[j].IsKeyframe()
  }

  ghost predicate HasWaited(b: Buffer, k: nat, nowMs: nat)
    requires k in b.frames
  {
    nowMs as real - b.frames[k].arrivalMs as real >= b.delayMs
  }

  /** At most one frame may start, and the buffer seeks exactly that one. */
  lemma SeeksTheStart(b: Buffer, k: nat)
    requires MayStart(b, k)
    ensures NextDecodable(b) == Some(k)
  {
    match b.last
    case Some(l) =>
      if k != l + 1 {
        assert HasKeyframe(b.frames, l + 2);
        assert IsFirstKeyframe(b.frames, l + 2, FirstKeyframe(b.frames, l + 2).value);
      }
    case None =>
      assert HasKeyframe(b.frames, 0);
      assert IsFirstKeyframe(b.frames, 0, FirstKeyframe(b.frames, 0).value);
  }

  /** A frame that may start and has waited long enough is decoded at once: a lost frame does not stop the stream. */
  lemma ReadyFrameIsDecoded(b: Buffer, k: nat, nowMs: nat)
    requires MayStart(b, k) && HasWaited(b, k, nowMs)
    ensures |Polled(b, nowMs).1| > 0 && Polled(b, nowMs).1[0] == b.frames[k]
  {
    SeeksTheStart(b, k);
    PollUnfolds(b, nowMs, k);
  }

  /** After a poll no frame that may start has waited long enough. */
  lemma {:induction false} NothingIsLeftReady(b: Buffer, nowMs: nat, k: nat)
    requires MayStart(Polled(b, nowMs).0, k)
    ensures !HasWaited(Polled(b, nowMs).0, k, nowMs)
    decreases |b.frames|
  {
    var next := NextDecodable(b);
    if next.None? || !IsReady(b, next.value, nowMs) {
      PollStops(b, nowMs, []);
      SeeksTheStart(b, k);
    } else {
      PollUnfolds(b, nowMs, next.value);
      NothingIsLeftReady(Release(b, next.value), nowMs, k);
    }
  }

  // ----- one event ----------------------------------------------------------------------

  lemma StoredKeeps(b: Buffer, frame: VideoFrame, nowMs: nat, epoch: seq<FrameBuffer>)
    requires Good(b, epoch) && !IsOld(b.last, frame.sequenceNumber)
    ensures var r := Stored(b, frame, nowMs); Good(r.buffer, epoch + r.out)
  {
    PollKeeps(Buffered(b, frame, nowMs), nowMs, epoch);
  }

  lemma SmoothedDelayInRange(delayMs: real, jitter: real)
    requires 10.0 <= delayMs <= 500.0
    ensures 10.0 <= SmoothedDelay(delayMs, jitter) <= 500.0
  {
  }

  lemma BufferedBounds(b: Buffer, frame: VideoFrame, nowMs: nat)
    requires BoundsOk(b) && |b.frames| < MAX_BUFFER_SIZE
    ensures BoundsOk(Buffered(b, frame, nowMs))
    ensures |Buffered(b, frame, nowMs).frames| == |b.frames| + (if frame.sequenceNumber in b.frames then 0 else 1)
  {
    assert Buffered(b, frame, nowMs).frames.Keys == b.frames.Keys + {frame.sequenceNumber};
    UpdatedNonNegative(b.estimate, frame.sequenceNumber, nowMs);
    SmoothedDelayInRange(b.delayMs, Updated(b.estimate, frame.sequenceNumber, nowMs).jitter);
  }

  /** One call accounts for every frame: what came in went out, was dropped, or is still there. */
  ghost predicate Balanced(b: Buffer, r: Outcome) {
    && BoundsOk(r.buffer)
    && |r.buffer.frames| + |r.out| + r.buffer.dropped + (if r.overwrote then 1 else 0)
       == |b.frames| + b.dropped + (if r.accepted then 1 else 0)
  }

  lemma PollBounds(b: Buffer, nowMs: nat)
    requires BoundsOk(b)
    ensures BoundsOk(Polled(b, nowMs).0)
  {
    PollCounts(b, nowMs);
    SubmapSize(Polled(b, nowMs).0.frames, b.frames);
  }

  lemma StoredCounts(b: Buffer, frame: VideoFrame, nowMs: nat)
    requires BoundsOk(b) && |b.frames| < MAX_BUFFER_SIZE
    ensures Balanced(b, Stored(b, frame, nowMs))
  {
    BufferedBounds(b, frame, nowMs);
    PollCounts(Buffered(b, frame, nowMs), nowMs);
    PollBounds(Buffered(b, frame, nowMs), nowMs);
  }

  lemma InsertedCounts(b: Buffer, frame: VideoFrame, nowMs: nat)
    requires BoundsOk(b)
    ensures Balanced(b, Inserted(b, frame, nowMs))
  {
    var b1 := b.(oldFrames := 0);
    if !IsOld(b.last, frame.sequenceNumber) {
      if |b1.frames| < MAX_BUFFER_SIZE {
        StoredCounts(b1, frame, nowMs);
        assert Inserted(b, frame, nowMs) == Stored(b1, frame, nowMs);
      } else if frame.frameType.KeyFrame? {
        StoredCounts(DroppedAll(b1), frame, nowMs);
        assert Inserted(b, frame, nowMs) == Stored(DroppedAll(b1), frame, nowMs);
      }
    }
  }

  /** What a call keeps: what it decoded extends the open epoch, which a flush closes. */
  ghost predicate Keeps(epoch: seq<FrameBuffer>, r: Outcome) {
    Decodable(epoch + r.out) && Good(r.buffer, if r.flushed then [] else epoch + r.out)
  }

  lemma CountingKeepsGood(b: Buffer, n: nat, epoch: seq<FrameBuffer>)
    requires Good(b, epoch)
    ensures Good(b.(oldFrames := n), epoch)
  {
  }

  lemma SilentKeeps(epoch: seq<FrameBuffer>, r: Outcome)
    requires Decodable(epoch) && r.out == [] && Good(r.buffer, if r.flushed then [] else epoch)
    ensures Keeps(epoch, r)
  {
    assert epoch + [] == epoch;
  }

  lemma InsertedOldKeeps(b: Buffer, frame: VideoFrame, epoch: seq<FrameBuffer>)
    requires Good(b, epoch)
    ensures Keeps(epoch, InsertedOld(b, frame))
  {
    CountingKeepsGood(b, b.oldFrames + 1, epoch);
    FlushedIsGood(b);
    FlushedIsGood(b.(oldFrames := b.oldFrames + 1));
    SilentKeeps(epoch, InsertedOld(b, frame));
  }

  lemma FlushedIsGood(b: Buffer)
    ensures Good(Flushed(b), [])
  {
  }

  lemma InsertedKeeps(b: Buffer, frame: VideoFrame, nowMs: nat, epoch: seq<FrameBuffer>)
    requires Good(b, epoch)
    ensures Keeps(epoch, Inserted(b, frame, nowMs))
  {
    var b1 := b.(oldFrames := 0);
    if IsOld(b.last, frame.sequenceNumber) {
      InsertedOldKeeps(b, frame, epoch);
    } else if |b1.frames| < MAX_BUFFER_SIZE {
      StoredKeeps(b1, frame, nowMs, epoch);
      assert Inserted(b, frame, nowMs) == Stored(b1, frame, nowMs);
    } else if frame.frameType.KeyFrame? {
      StoredKeeps(DroppedAll(b1), frame, nowMs, epoch);
      assert Inserted(b, frame, nowMs) == Stored(DroppedAll(b1), frame, nowMs);
    } else {
      assert epoch + [] == epoch;
    }
  }

  lemma StepKeeps(b: Buffer, event: Event, epoch: seq<FrameBuffer>)
    requires Good(b, epoch)
    ensures Keeps(epoch, Step(b, event))
  {
    match event
    case InsertFrame(frame, at) => InsertedKeeps(b, frame, at, epoch);
    case Poll(at) => PollKeeps(b, at, epoch);
    case Flush =>
      FlushedIsGood(b);
      SilentKeeps(epoch, Step(b, event));
    case DropAll =>
      DroppedIsGood(b, epoch);
      SilentKeeps(epoch, Step(b, event));
  }

  lemma DroppedIsGood(b: Buffer, epoch: seq<FrameBuffer>)
    requires Good(b, epoch)
    ensures Good(DroppedAll(b), epoch)
  {
  }

  lemma StepCounts(b: Buffer, event: Event)
    requires BoundsOk(b)
    ensures Balanced(b, Step(b, event))
  {
    match event
    case InsertFrame(frame, at) => InsertedCounts(b, frame, at);
    case Poll(at) =>
      PollCounts(b, at);
      PollBounds(b, at);
    case Flush =>
    case DropAll =>
  }

  // ----- what an insert does ---------------------------------------------------------------

  /** An insert flushes exactly for an old frame that is a keyframe over 30 numbers back, or the 301st in a row. */
  lemma FlushesIff(b: Buffer, frame: VideoFrame, atMs: nat)
    ensures Step(b, InsertFrame(frame, atMs)).flushed <==>
      && b.last.Some? && frame.sequenceNumber <= b.last.value
      && ((frame.frameType.KeyFrame? && b.last.value > frame.sequenceNumber + 30) || b.oldFrames >= 300)
  {
  }

  /** It accepts exactly a frame beyond the last decoded one, unless that is a delta frame meeting 200 frames. */
  lemma AcceptsIff(b: Buffer, frame: VideoFrame, atMs: nat)
    ensures Step(b, InsertFrame(frame, atMs)).accepted <==>
      && (b.last.Some? ==> b.last.value < frame.sequenceNumber)
      && (|b.frames| < 200 || frame.frameType.KeyFrame?)
  {
  }

  /** A flush leaves nothing but the playout delay and the count of dropped frames. */
  lemma FlushLeaves(b: Buffer)
    ensures Step(b, Event.Flush).buffer == Buffer(map[], None, Estimate(0.0, 0, 0, true), b.delayMs, b.dropped + |b.frames|, 0)
    ensures Step(b, Event.Flush).flushed && Step(b, Event.Flush).out == []
  {
  }

  // ----- the playout delay follows the jitter -------------------------------------------------

  /** Three times the jitter, between 10 and 500 ms. */
  function DelayGoal(jitter: real): real {
    if 3.0 * jitter <= 10.0 then 10.0 else if 3.0 * jitter >= 500.0 then 500.0 else 3.0 * jitter
  }

  ghost function DelayAfter(delayMs: real, jitter: real, k: nat): real {
    if k == 0 then delayMs else SmoothedDelay(DelayAfter(delayMs, jitter, k - 1), jitter)
  }

  lemma DelayStep(delayMs: real, jitter: real)
    ensures DelayGoal(jitter) - SmoothedDelay(delayMs, jitter) == 0.99 * (DelayGoal(jitter) - delayMs)
  {
  }

  /** At constant jitter the delay approaches its goal by one percent per frame. */
  lemma {:induction false} DelayConverges(delayMs: real, jitter: real, k: nat)
    ensures DelayGoal(jitter) - DelayAfter(delayMs, jitter, k) == Shrunk(0.99, DelayGoal(jitter) - delayMs, k)
  {
    if k == 0 {
    } else {
      DelayConverges(delayMs, jitter, k - 1);
      DelayStep(DelayAfter(delayMs, jitter, k - 1), jitter);
    }
  }

  /** In closed form. */
  lemma {:induction false} DelayFollowsJitter(delayMs: real, jitter: real, k: nat)
    ensures DelayGoal(jitter) - DelayAfter(delayMs, jitter, k) == Pow(0.99, k) * (DelayGoal(jitter) - delayMs)
  {
    DelayConverges(delayMs, jitter, k);
    ShrunkIsPow(0.99, DelayGoal(jitter) - delayMs, k);
  }

  /** Every accepted frame moves the delay that way, with the jitter it has just updated. */
  lemma AcceptedFrameMovesDelay(b: Buffer, frame: VideoFrame, atMs: nat)
    requires Step(b, InsertFrame(frame, atMs)).accepted
    ensures var b' := Step(b, InsertFrame(frame, atMs)).buffer;
      DelayGoal(b'.estimate.jitter) - b'.delayMs == 0.99 * (DelayGoal(b'.estimate.jitter) - b.delayMs)
  {
    var b1 := b.(oldFrames := 0);
    var room := if |b1.frames| < MAX_BUFFER_SIZE then b1 else DroppedAll(b1);
    PollCounts(Buffered(room, frame, atMs), atMs);
    DelayStep(b.delayMs, Updated(b.estimate, frame.sequenceNumber, atMs).jitter);
  }

  // ----- main results -------------------------------------------------------------------

  /** Every epoch is decodable, and the open one fits the buffer. */
  ghost predicate HistoryOk(h: History) {
    && |h.epochs| > 0 && Good(h.buffer, Open(h))
    && (forall e :: 0 <= e < |h.epochs| ==> Decodable(h.epochs[e]))
  }

  /** Closed epochs and an open one that fits the buffer. */
  lemma HistoryFrom(h: History, closed: seq<seq<FrameBuffer>>, open: seq<FrameBuffer>)
    requires h.epochs == closed + [open] && Good(h.buffer, open)
    requires forall e :: 0 <= e < |closed| ==> Decodable(closed[e])
    ensures HistoryOk(h)
  {
    assert Open(h) == open;
  }

  lemma AdvanceKeeps(h: History, event: Event)
    requires HistoryOk(h)
    ensures HistoryOk(Advance(h, event))
  {
    var r := Step(h.buffer, event);
    StepKeeps(h.buffer, event, Open(h));
    var closed, extended := h.epochs[..|h.epochs| - 1], Open(h) + r.out;
    if r.flushed {
      HistoryFrom(Advance(h, event), closed + [extended], []);
    } else {
      HistoryFrom(Advance(h, event), closed, extended);
    }
  }

  /** Over every run, what reaches the decoder between two flushes is decodable. */
  lemma {:induction false} RunsAreDecodable(events: seq<Event>)
    ensures forall e :: 0 <= e < |Run(events).epochs| ==> Decodable(Run(events).epochs[e])
    ensures Good(Run(events).buffer, Open(Run(events)))
  {
    if events == [] {
    } else {
      var before := events[..|events| - 1];
      RunsAreDecodable(before);
      AdvanceKeeps(Run(before), events[|events| - 1]);
    }
  }

  /** A run of frames t0..t of consecutive sequence numbers that starts at a keyframe. */
  ghost predicate UnbrokenChain(epoch: seq<FrameBuffer>, t0: nat, t: nat) {
    && t0 <= t < |epoch| && epoch[t0].IsKeyframe()
    && forall u :: t0 <= u <= t ==> Seq(epoch[u]) == Seq(epoch[t0]) + (u - t0)
  }

  /** Every decoded frame has an unbroken chain back to a decoded keyframe. */
  lemma {:induction false} ChainToKeyframe(epoch: seq<FrameBuffer>, t: nat) returns (t0: nat)
    requires Decodable(epoch) && t < |epoch|
    ensures UnbrokenChain(epoch, t0, t)
    decreases t
  {
    if epoch[t].IsKeyframe() {
      t0 := t;
    } else {
      t0 := ChainToKeyframe(epoch, t - 1);
      assert Seq(epoch[t]) == Seq(epoch[t - 1]) + 1;
    }
  }

  /** Headline form: every frame ever decoded, in every epoch of every run. */
  lemma DecodedFramesHaveTheirReferences(events: seq<Event>, e: nat, t: nat)
    requires e < |Run(events).epochs| && t < |Run(events).epochs[e]|
    ensures Run(events).epochs[e][0].IsKeyframe()
    ensures exists t0: nat :: UnbrokenChain(Run(events).epochs[e], t0, t)
  {
    RunsAreDecodable(events);
    var t0 := ChainToKeyframe(Run(events).epochs[e], t);
  }

  ghost function Total(epochs: seq<seq<FrameBuffer>>): nat {
    if epochs == [] then 0 else Total(epochs[..|epochs| - 1]) + |epochs[|epochs| - 1]|
  }

  /** Conservation: accepted = decoded + dropped + buffered + overwritten; and all bounds hold. */
  lemma {:induction false} FramesAreConserved(events: seq<Event>)
    ensures var h := Run(events);
      && h.accepted == Total(h.epochs) + h.buffer.dropped + |h.buffer.frames| + h.overwritten
      && BoundsOk(h.buffer)
  {
    if events == [] {
    } else {
      var h := Run(events[..|events| - 1]);
      var event := events[|events| - 1];
      FramesAreConserved(events[..|events| - 1]);
      StepCounts(h.buffer, event);
      var step := Step(h.buffer, event);
      var epochs := h.epochs[..|h.epochs| - 1] + [Open(h) + step.out];
      assert epochs[..|epochs| - 1] == h.epochs[..|h.epochs| - 1];
      assert Total(epochs) == Total(h.epochs) + |step.out|;
      assert (epochs + [[]])[..|epochs|] == epochs;
    }
  }

  ghost predicate WasInserted(events: seq<Event>, f: FrameBuffer) {
    InsertFrame(f.frame, f.arrivalMs) in events
  }

  ghost predicate AllInserted(events: seq<Event>, h: History) {
    && (forall f :: f in h.buffer.frames.Values ==> WasInserted(events, f))
    && (forall e :: 0 <= e < |h.epochs| ==> EpochInserted(events, h.epochs[e]))
  }

  ghost predicate EpochInserted(events: seq<Event>, epoch: seq<FrameBuffer>) {
    forall f :: f in epoch ==> WasInserted(events, f)
  }

  lemma FromStepInserted(events: seq<Event>, event: Event, b: Buffer, f: FrameBuffer)
    requires forall g :: g in b.frames.Values ==> WasInserted(events, g)
    requires FromStep(b, event, f)
    ensures WasInserted(events + [event], f)
  {
  }

  lemma AdvanceInserted(events: seq<Event>, event: Event, h: History)
    requires |h.epochs| > 0 && AllInserted(events, h)
    ensures AllInserted(events + [event], Advance(h, event))
  {
    var r := Step(h.buffer, event);
    StepSource(h.buffer, event);
    forall f | f in r.buffer.frames.Values ensures WasInserted(events + [event], f) {
      FromStepInserted(events, event, h.buffer, f);
    }
    forall f | f in r.out ensures WasInserted(events + [event], f) {
      FromStepInserted(events, event, h.buffer, f);
    }
    var h' := Advance(h, event);
    forall e | 0 <= e < |h'.epochs| ensures EpochInserted(events + [event], h'.epochs[e]) {
      if e < |h.epochs| {
        assert EpochInserted(events, h.epochs[e]);
      }
    }
  }

  /** Nothing is invented: every buffered or decoded frame was inserted, with its own arrival time. */
  lemma {:induction false} NothingIsInvented(events: seq<Event>)
    ensures AllInserted(events, Run(events))
  {
    if events == [] {
    } else {
      var before := events[..|events| - 1];
      NothingIsInvented(before);
      AdvanceInserted(before, events[|events| - 1], Run(before));
      assert events == before + [events[|events| - 1]];
    }
  }

  lemma StepSource(b: Buffer, event: Event)
    ensures var r := Step(b, event);
      && (forall f :: f in r.buffer.frames.Values ==> FromStep(b, event, f))
      && (forall f :: f in r.out ==> FromStep(b, event, f))
  {
    match event
    case InsertFrame(frame, at) =>
      if !IsOld(b.last, frame.sequenceNumber) {
        var b1 := b.(oldFrames := 0);
        StoredSource(b1, frame, at);
        StoredSource(DroppedAll(b1), frame, at);
      }
    case Poll(at) =>
      PollCounts(b, at);
      var rest := Polled(b, at).0;
      forall f | f in rest.frames.Values ensures f in b.frames.Values {
        var k :| k in rest.frames && rest.frames[k] == f;
        assert b.frames[k] == f;
      }
    case Flush =>
    case DropAll =>
  }

  ghost predicate FromStep(b: Buffer, event: Event, f: FrameBuffer) {
    f in b.frames.Values || event == InsertFrame(f.frame, f.arrivalMs)
  }

  lemma StoredSource(b: Buffer, frame: VideoFrame, nowMs: nat)
    ensures var r := Stored(b, frame, nowMs);
      && (forall f :: f in r.buffer.frames.Values ==> FromStep(b, InsertFrame(frame, nowMs), f))
      && (forall f :: f in r.out ==> FromStep(b, InsertFrame(frame, nowMs), f))
  {
    var stored := Buffered(b, frame, nowMs);
    PollCounts(stored, nowMs);
    forall f | f in stored.frames.Values ensures FromStep(b, InsertFrame(frame, nowMs), f) {
      var k :| k in stored.frames && stored.frames[k] == f;
      if k != frame.sequenceNumber { assert b.frames[k] == f; }
    }
    var rest := Polled(stored, nowMs).0;
    forall f | f in rest.frames.Values ensures FromStep(b, InsertFrame(frame, nowMs), f) {
      var k :| k in rest.frames && rest.frames[k] == f;
      assert stored.frames[k] in stored.frames.Values;
    }
  }

  // ----- the old-frame counter ------------------------------------------------------------

  ghost function After(b: Buffer, events: seq<Event>): Buffer {
    if events == [] then b else Step(After(b, events[..|events| - 1]), events[|events| - 1]).buffer
  }

  /** Each event is an insert of a frame that is old when it arrives, or a poll. */
  ghost predicate OnlyOldInserts(b: Buffer, events: seq<Event>) {
    forall i :: 0 <= i < |events| ==> OldInsertOrPoll(After(b, events[..i]), events[i])
  }

  ghost predicate OldInsertOrPoll(b: Buffer, event: Event) {
    event.Poll? || (event.InsertFrame? && IsOld(b.last, event.frame.sequenceNumber))
  }

  ghost predicate NeverFlushes(b: Buffer, events: seq<Event>) {
    forall i :: 0 <= i < |events| ==> !Step(After(b, events[..i]), events[i]).flushed
  }

  ghost function Inserts(events: seq<Event>): nat {
    if events == [] then 0
    else Inserts(events[..|events| - 1]) + (if events[|events| - 1].InsertFrame? then 1 else 0)
  }

  /** While nothing is flushed, the counter counts the old inserts and stays within its limit. */
  lemma {:induction false} OldFramesAreCounted(b: Buffer, events: seq<Event>)
    requires b.oldFrames <= 300
    requires OnlyOldInserts(b, events) && NeverFlushes(b, events)
    ensures After(b, events).oldFrames == b.oldFrames + Inserts(events)
    ensures After(b, events).oldFrames <= 300
  {
    if events == [] {
    } else {
      var n := |events| - 1;
      var before := events[..n];
      assert forall i :: 0 <= i < n ==> before[..i] == events[..i];
      forall i | 0 <= i < n
        ensures OldInsertOrPoll(After(b, before[..i]), before[i]) && !Step(After(b, before[..i]), before[i]).flushed
      {
        assert OldInsertOrPoll(After(b, events[..i]), events[i]) && !Step(After(b, events[..i]), events[i]).flushed;
      }
      OldFramesAreCounted(b, before);
      var current := After(b, before);
      assert OldInsertOrPoll(After(b, events[..n]), events[n]) && !Step(After(b, events[..n]), events[n]).flushed;
      if events[n].Poll? {
        PollCounts(current, events[n].atMs);
      }
    }
  }

  /** 301 old frames in a row, polls between them or not, force a flush from any reachable buffer. */
  lemma OldFramesForceFlush(b: Buffer, events: seq<Event>)
    requires b.oldFrames <= 300
    requires OnlyOldInserts(b, events) && Inserts(events) > 300
    ensures !NeverFlushes(b, events)
  {
    if NeverFlushes(b, events) {
      OldFramesAreCounted(b, events);
    }
  }

  // ----- after a restart ------------------------------------------------------------------

  /** Everything the run sends to the decoder. */
  ghost function Decoded(b: Buffer, events: seq<Event>): seq<FrameBuffer> {
    if events == [] then []
    else
      var before := events[..|events| - 1];
      Decoded(b, before) + Step(After(b, before), events[|events| - 1]).out
  }

  /** Nothing decoded yet and no keyframe to start from. */
  ghost predicate IsDark(b: Buffer) {
    b.last.None? && forall k :: k in b.frames ==> !b.frames[k].IsKeyframe()
  }

  predicate BringsNoKeyframe(event: Event) { event.InsertFrame? ==> event.frame.frameType.DeltaFrame? }

  lemma DarkPoll(b: Buffer, nowMs: nat)
    requires IsDark(b)
    ensures Polled(b, nowMs) == (b, [])
  {
  }

  lemma DarkStep(b: Buffer, event: Event)
    requires IsDark(b) && BringsNoKeyframe(event)
    ensures IsDark(Step(b, event).buffer) && Step(b, event).out == []
  {
    match event
    case InsertFrame(frame, at) => DarkPoll(Buffered(b.(oldFrames := 0), frame, at), at);
    case Poll(at) => DarkPoll(b, at);
    case Flush =>
    case DropAll =>
  }

  /** Without a keyframe a dark buffer stays dark: nothing at all is decoded. */
  lemma {:induction false} DarkUntilKeyframe(b: Buffer, events: seq<Event>)
    requires IsDark(b) && forall i :: 0 <= i < |events| ==> BringsNoKeyframe(events[i])
    ensures IsDark(After(b, events)) && Decoded(b, events) == []
  {
    if events == [] {
    } else {
      var n := |events| - 1;
      DarkUntilKeyframe(b, events[..n]);
      DarkStep(After(b, events[..n]), events[n]);
    }
  }

  /** The keyframe of a restart is lost: it is not decoded, and nothing is until another keyframe arrives. */
  lemma RestartWaitsForKeyframe(b: Buffer, frame: VideoFrame, atMs: nat, events: seq<Event>)
    requires IsRestart(b.last, frame) && forall i :: 0 <= i < |events| ==> BringsNoKeyframe(events[i])
    ensures var r := Step(b, InsertFrame(frame, atMs));
      r.flushed && r.out == [] && r.buffer.frames == map[] && Decoded(r.buffer, events) == []
  {
    DarkUntilKeyframe(Step(b, InsertFrame(frame, atMs)).buffer, events);
  }

  // ----- jitter ---------------------------------------------------------------------------

  /** The transit difference of an insert that the buffer accepts, where the estimator takes it in, is at most `bound`. */
  ghost predicate AcceptedWithin(b: Buffer, event: Event, bound: real) {
    event.InsertFrame? && Step(b, event).accepted ==>
      StepWithin(b.estimate, Arrival(event.frame.sequenceNumber, event.atMs), bound)
  }

  ghost predicate TransitBounded(events: seq<Event>, bound: real) {
    forall i :: 0 <= i < |events| ==> AcceptedWithin(Run(events[..i]).buffer, events[i], bound)
  }

  lemma StoredEstimate(b: Buffer, frame: VideoFrame, nowMs: nat)
    ensures Stored(b, frame, nowMs).buffer.estimate == Updated(b.estimate, frame.sequenceNumber, nowMs)
  {
    PollCounts(Buffered(b, frame, nowMs), nowMs);
  }

  lemma InsertJitter(b: Buffer, frame: VideoFrame, nowMs: nat, bound: real)
    requires 0.0 <= b.estimate.jitter <= bound
    requires Inserted(b, frame, nowMs).accepted ==> StepWithin(b.estimate, Arrival(frame.sequenceNumber, nowMs), bound)
    ensures 0.0 <= Inserted(b, frame, nowMs).buffer.estimate.jitter <= bound
  {
    if Inserted(b, frame, nowMs).accepted {
      StepKeepsBound(b.estimate, Arrival(frame.sequenceNumber, nowMs), bound);
      var b1 := b.(oldFrames := 0);
      StoredEstimate(b1, frame, nowMs);
      StoredEstimate(DroppedAll(b1), frame, nowMs);
    }
  }

  lemma StepJitter(b: Buffer, event: Event, bound: real)
    requires 0.0 <= b.estimate.jitter <= bound && AcceptedWithin(b, event, bound)
    ensures 0.0 <= Step(b, event).buffer.estimate.jitter <= bound
  {
    match event
    case InsertFrame(frame, at) => InsertJitter(b, frame, at, bound);
    case Poll(at) => PollCounts(b, at);
    case Flush =>
    case DropAll =>
  }

  /** Over every run, flushes included, the jitter stays between 0 and a bound on the transit differences. */
  lemma {:induction false} RunJitterIsBounded(events: seq<Event>, bound: real)
    requires 0.0 <= bound && TransitBounded(events, bound)
    ensures 0.0 <= Run(events).buffer.estimate.jitter <= bound
  {
    if events == [] {
    } else {
      var n := |events| - 1;
      var before := events[..n];
      forall i | 0 <= i < n ensures AcceptedWithin(Run(before[..i]).buffer, before[i], bound) {
        assert before[..i] == events[..i];
      }
      RunJitterIsBounded(before, bound);
      assert events[..n] == before;
      StepJitter(Run(before).buffer, events[n], bound);
    }
  }
}
