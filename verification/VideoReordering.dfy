/** Arrival order does not matter to the video jitter buffer, and its clock never underflows. */
module VideoReordering {
  import opened Options
  import opened VideoJitterBuffer
  import opened VideoRuns

  // ----- the clock ---------------------------------------------------------------------

  lemma PollClock(b: Buffer, nowMs: nat, laterMs: nat)
    requires ClockOk(b, nowMs) && nowMs <= laterMs
    ensures ClockOk(Polled(b, nowMs).0, laterMs)
  {
    PollCounts(b, nowMs);
  }

  lemma StoredClock(b: Buffer, frame: VideoFrame, nowMs: nat, laterMs: nat)
    requires ClockOk(b, nowMs) && nowMs <= laterMs
    ensures ClockOk(Stored(b, frame, nowMs).buffer, laterMs)
  {
    PollClock(Buffered(b, frame, nowMs), nowMs, laterMs);
  }

  predicate IsTimed(event: Event) { event.InsertFrame? || event.Poll? }

  /** One call keeps every stored time at or before the clock. */
  lemma StepClock(b: Buffer, event: Event, nowMs: nat, laterMs: nat)
    requires ClockOk(b, nowMs) && nowMs <= laterMs && (IsTimed(event) ==> event.atMs == nowMs)
    ensures ClockOk(Step(b, event).buffer, laterMs)
  {
    match event
    case InsertFrame(frame, at) =>
      if !IsOld(b.last, frame.sequenceNumber) {
        var b1 := b.(oldFrames := 0);
        if |b1.frames| < 200 {
          StoredClock(b1, frame, at, laterMs);
        } else if frame.frameType.KeyFrame? {
          StoredClock(DroppedAll(b1), frame, at, laterMs);
        }
      }
    case Poll(at) => PollClock(b, at, laterMs);
    case Flush =>
    case DropAll =>
  }

  /** Inserts and polls never go back in time. */
  ghost predicate InTime(events: seq<Event>) {
    forall i, j :: 0 <= i < j < |events| && IsTimed(events[i]) && IsTimed(events[j]) ==> events[i].atMs <= events[j].atMs
  }

  lemma {:induction false} RunClock(events: seq<Event>, nowMs: nat)
    requires InTime(events)
    requires forall i :: 0 <= i < |events| && IsTimed(events[i]) ==> events[i].atMs <= nowMs
    ensures ClockOk(Run(events).buffer, nowMs)
  {
    if events == [] {
    } else {
      var n := |events| - 1;
      var at := if IsTimed(events[n]) then events[n].atMs else nowMs;
      RunClock(events[..n], at);
      StepClock(Run(events[..n]).buffer, events[n], at, nowMs);
    }
  }

  /** At every insert and poll of every run in time order, no unsigned time difference underflows. */
  lemma ClockNeverUnderflows(events: seq<Event>, i: nat)
    requires InTime(events) && i < |events| && IsTimed(events[i])
    ensures ClockOk(Run(events[..i]).buffer, events[i].atMs)
  {
    RunClock(events[..i], events[i].atMs);
  }

  // ----- frames of consecutive sequence numbers, in any order of arrival ---------------------

  /** Consecutive frames from `base`; the lowest is a keyframe. */
  ghost predicate IsStream(frames: seq<VideoFrame>, base: nat) {
    && |frames| > 0 && frames[0].frameType.KeyFrame?
    && forall i :: 0 <= i < |frames| ==> frames[i].sequenceNumber == base + i
  }

  /** Inserts of stream frames at times in [start, start + 10) that do not go backwards. */
  ghost predicate IsBurst(frames: seq<VideoFrame>, arrivals: seq<Event>, start: nat) {
    && (forall i :: 0 <= i < |arrivals| ==>
          arrivals[i].InsertFrame? && arrivals[i].frame in frames && start <= arrivals[i].atMs < start + 10)
    && (forall i, j :: 0 <= i < j < |arrivals| ==> arrivals[i].atMs <= arrivals[j].atMs)
  }

  /** A buffer that is empty and waits for a keyframe: fresh, or just flushed. */
  ghost predicate IsIdle(b: Buffer) {
    b.frames == map[] && b.last.None? && BoundsOk(b)
  }

  /** A fresh buffer is idle, and so is any buffer of a run right after a flush. */
  lemma FreshAndFlushedAreIdle(events: seq<Event>)
    ensures IsIdle(FRESH) && IsIdle(Flushed(Run(events).buffer))
  {
    FramesAreConserved(events);
  }

  /** The buffer holds only stream frames of the burst and has decoded nothing. */
  ghost predicate Holds(b: Buffer, frames: seq<VideoFrame>, base: nat, start: nat) {
    b.last.None? && BoundsOk(b) && HoldsOnly(b.frames, frames, base, start)
  }

  /** Every held frame is the stream frame of its key and arrived in the burst. */
  ghost predicate HoldsOnly(held: Frames, frames: seq<VideoFrame>, base: nat, start: nat) {
    forall k :: k in held ==>
      base <= k < base + |frames| && held[k].frame == frames[k - base] && start <= held[k].arrivalMs < start + 10
  }

  lemma HoldsOneMore(held: Frames, frames: seq<VideoFrame>, base: nat, start: nat, frame: VideoFrame, atMs: nat)
    requires IsStream(frames, base) && HoldsOnly(held, frames, base, start)
    requires frame in frames && start <= atMs < start + 10
    ensures HoldsOnly(held[frame.sequenceNumber := FrameBuffer(frame, atMs)], frames, base, start)
  {
    var i :| 0 <= i < |frames| && frames[i] == frame;
    assert frame.sequenceNumber - base == i;
  }

  lemma {:induction false} KeysWithin(s: set<nat>, base: nat, n: nat)
    requires forall k :: k in s ==> base <= k < base + n
    ensures |s| <= n
    decreases n
  {
    if n > 0 {
      var top := base + n - 1;
      KeysWithin(s - {top}, base, n - 1);
      assert |s| <= |s - {top}| + 1;
    } else {
      assert s == {};
    }
  }

  /** Within 10 ms of the first arrival no frame is ready, so nothing is decoded yet. */
  lemma NothingReadyYet(b: Buffer, start: nat, nowMs: nat)
    requires BoundsOk(b) && nowMs < start + 10
    requires forall k :: k in b.frames ==> start <= b.frames[k].arrivalMs
    ensures Polled(b, nowMs) == (b, [])
  {
    var next := NextDecodable(b);
    if next.Some? {
      assert (nowMs - b.frames[next.value].arrivalMs) as real < 10.0;
    }
  }

  lemma ArrivalStores(b: Buffer, start: nat, event: Event)
    requires b.last.None? && BoundsOk(b) && |b.frames| < 200
    requires event.InsertFrame? && start <= event.atMs < start + 10
    requires forall k :: k in b.frames ==> start <= b.frames[k].arrivalMs
    ensures var stored := Buffered(b.(oldFrames := 0), event.frame, event.atMs);
      BoundsOk(stored) && Step(b, event).buffer == stored && Step(b, event).out == [] && !Step(b, event).flushed
  {
    var b1 := b.(oldFrames := 0);
    BufferedBounds(b1, event.frame, event.atMs);
    NothingReadyYet(Buffered(b1, event.frame, event.atMs), start, event.atMs);
  }

  /** The sequence numbers waiting after one more frame: a full buffer rejects it, or is cleared by a keyframe. */
  ghost function NextWaiting(waiting: set<nat>, frame: VideoFrame): set<nat> {
    if |waiting| < 200 then waiting + {frame.sequenceNumber}
    else if frame.frameType.KeyFrame? then {frame.sequenceNumber}
    else waiting
  }

  /** The sequence numbers waiting after a burst, from its frames alone. */
  ghost function Waiting(arrivals: seq<Event>): set<nat>
    requires forall i :: 0 <= i < |arrivals| ==> arrivals[i].InsertFrame?
  {
    if arrivals == [] then {}
    else NextWaiting(Waiting(arrivals[..|arrivals| - 1]), arrivals[|arrivals| - 1].frame)
  }

  /** A keyframe that meets a full buffer does clear it: everything else that waited is dropped. */
  lemma KeyframeClearsFullBuffer(b: Buffer, start: nat, event: Event)
    requires b.last.None? && BoundsOk(b) && |b.frames| == 200
    requires event.InsertFrame? && event.frame.frameType.KeyFrame? && start <= event.atMs < start + 10
    ensures Step(b, event).buffer.frames == map[event.frame.sequenceNumber := FrameBuffer(event.frame, event.atMs)]
    ensures Step(b, event).out == [] && Step(b, event).buffer.last.None? && BoundsOk(Step(b, event).buffer)
    ensures Step(b, event).buffer.dropped == b.dropped + 200
  {
    var empty := DroppedAll(b);
    ArrivalStores(empty, start, event);
    assert DroppedAll(b.(oldFrames := 0)) == empty.(oldFrames := 0);
    assert Step(b, event) == Step(empty, event);
  }

  lemma ArrivalIsStored(b: Buffer, frames: seq<VideoFrame>, base: nat, start: nat, event: Event)
    requires IsStream(frames, base) && Holds(b, frames, base, start)
    requires event.InsertFrame? && event.frame in frames && start <= event.atMs < start + 10
    requires |b.frames| < 200
    ensures Step(b, event).out == [] && Holds(Step(b, event).buffer, frames, base, start)
    ensures Step(b, event).buffer.frames.Keys == b.frames.Keys + {event.frame.sequenceNumber}
  {
    ArrivalStores(b, start, event);
    HoldsOneMore(b.frames, frames, base, start, event.frame, event.atMs);
  }

  lemma ArrivalClears(b: Buffer, frames: seq<VideoFrame>, base: nat, start: nat, event: Event)
    requires IsStream(frames, base) && Holds(b, frames, base, start)
    requires event.InsertFrame? && event.frame in frames && start <= event.atMs < start + 10
    requires |b.frames| == 200 && event.frame.frameType.KeyFrame?
    ensures Step(b, event).out == [] && Holds(Step(b, event).buffer, frames, base, start)
    ensures Step(b, event).buffer.frames.Keys == {event.frame.sequenceNumber}
  {
    KeyframeClearsFullBuffer(b, start, event);
    HoldsOneMore(map[], frames, base, start, event.frame, event.atMs);
    assert map[][event.frame.sequenceNumber := FrameBuffer(event.frame, event.atMs)]
        == map[event.frame.sequenceNumber := FrameBuffer(event.frame, event.atMs)];
  }

  lemma ArrivalKeeps(b: Buffer, frames: seq<VideoFrame>, base: nat, start: nat, event: Event)
    requires IsStream(frames, base) && Holds(b, frames, base, start)
    requires event.InsertFrame? && event.frame in frames && start <= event.atMs < start + 10
    ensures Step(b, event).out == [] && Holds(Step(b, event).buffer, frames, base, start)
    ensures Step(b, event).buffer.frames.Keys == NextWaiting(b.frames.Keys, event.frame)
  {
    assert |b.frames.Keys| == |b.frames|;
    if |b.frames| < 200 {
      ArrivalIsStored(b, frames, base, start, event);
    } else if event.frame.frameType.KeyFrame? {
      ArrivalClears(b, frames, base, start, event);
    }
  }

  lemma BurstPrefix(frames: seq<VideoFrame>, arrivals: seq<Event>, start: nat, n: nat)
    requires IsBurst(frames, arrivals, start) && n <= |arrivals|
    ensures IsBurst(frames, arrivals[..n], start)
  {
    assert forall i :: 0 <= i < n ==> arrivals[..n][i] == arrivals[i];
  }

  lemma {:induction false} BurstIsHeld(b: Buffer, frames: seq<VideoFrame>, base: nat, arrivals: seq<Event>, start: nat)
    requires IsIdle(b) && IsStream(frames, base) && IsBurst(frames, arrivals, start)
    ensures Holds(After(b, arrivals), frames, base, start) && After(b, arrivals).frames.Keys == Waiting(arrivals)
    ensures Decoded(b, arrivals) == []
    decreases |arrivals|
  {
    if arrivals == [] {
    } else {
      var n := |arrivals| - 1;
      var before := arrivals[..n];
      BurstPrefix(frames, arrivals, start, n);
      BurstIsHeld(b, frames, base, before, start);
      ArrivalKeeps(After(b, before), frames, base, start, arrivals[n]);
    }
  }

  // ----- the poll drains a complete stream in order -----------------------------------------

  /** The keys are exactly lo .. hi - 1, all have waited 500 ms, and `lo` may be decoded next. */
  ghost predicate CanDrain(b: Buffer, lo: nat, hi: nat, nowMs: nat) {
    && lo <= hi && BoundsOk(b)
    && (forall k :: k in b.frames <==> lo <= k < hi)
    && (forall k :: k in b.frames ==> b.frames[k].arrivalMs + 500 <= nowMs)
    && (lo < hi ==> match b.last case Some(l) => l + 1 == lo case None => b.frames[lo].IsKeyframe())
    && (b.last.Some? ==> b.last.value + 1 == lo)
  }

  lemma DrainsNext(b: Buffer, lo: nat, hi: nat, nowMs: nat)
    requires CanDrain(b, lo, hi, nowMs) && lo < hi
    ensures lo in b.frames && NextDecodable(b) == Some(lo) && IsReady(b, lo, nowMs)
  {
    assert lo in b.frames;
    if b.last.None? {
      assert HasKeyframe(b.frames, 0);
      var k := FirstKeyframe(b.frames, 0).value;
      assert IsFirstKeyframe(b.frames, 0, k) && k <= lo;
    }
  }

  /** Releasing the lowest key takes that frame and drops nothing. */
  lemma ReleaseLowest(b: Buffer, lo: nat)
    requires lo in b.frames && forall k :: k in b.frames ==> lo <= k
    ensures Release(b, lo).frames == b.frames - {lo}
    ensures Release(b, lo).last == Some(lo) && Release(b, lo).delayMs == b.delayMs && Release(b, lo).estimate == b.estimate
  {
    var taken := b.frames - {lo};
    var stale := set j | j in taken && j < lo;
    assert stale == {};
    assert taken - stale == taken;
  }

  lemma DrainStep(b: Buffer, lo: nat, hi: nat, nowMs: nat)
    requires CanDrain(b, lo, hi, nowMs) && lo < hi
    ensures lo in b.frames && CanDrain(Release(b, lo), lo + 1, hi, nowMs)
    ensures forall k :: k in Release(b, lo).frames ==> k in b.frames && Release(b, lo).frames[k] == b.frames[k]
  {
    assert lo in b.frames;
    ReleaseLowest(b, lo);
    ReleaseCounts(b, lo);
    SubmapSize(Release(b, lo).frames, b.frames);
  }

  lemma PolledEmpty(b: Buffer, nowMs: nat)
    requires b.frames == map[]
    ensures Polled(b, nowMs) == (b, [])
  {
  }

  /** `out` lists the frames lo, lo + 1, ... of the buffer. */
  ghost predicate InOrder(out: seq<FrameBuffer>, frames: Frames, lo: nat) {
    forall k: nat :: lo <= k < lo + |out| ==> k in frames && out[k - lo] == frames[k]
  }

  lemma PrependInOrder(out: seq<FrameBuffer>, rest: Frames, frames: Frames, lo: nat)
    requires InOrder(out, rest, lo + 1) && lo in frames
    requires forall k :: k in rest ==> k in frames && rest[k] == frames[k]
    ensures InOrder([frames[lo]] + out, frames, lo)
  {
    var longer := [frames[lo]] + out;
    forall k: nat | lo <= k < lo + |longer| ensures k in frames && longer[k - lo] == frames[k] {
      if lo < k {
        assert k in rest && out[k - (lo + 1)] == rest[k];
        assert longer[k - lo] == out[k - lo - 1];
      }
    }
  }

  lemma {:induction false} DrainsInOrder(b: Buffer, lo: nat, hi: nat, nowMs: nat)
    requires CanDrain(b, lo, hi, nowMs)
    ensures |Polled(b, nowMs).1| == hi - lo && InOrder(Polled(b, nowMs).1, b.frames, lo)
    ensures Polled(b, nowMs).0.frames == map[]
    decreases hi - lo
  {
    if lo == hi {
      assert b.frames == map[];
      PolledEmpty(b, nowMs);
    } else {
      DrainsNext(b, lo, hi, nowMs);
      DrainStep(b, lo, hi, nowMs);
      var rest := Release(b, lo);
      DrainsInOrder(rest, lo + 1, hi, nowMs);
      PollUnfolds(b, nowMs, lo);
      PrependInOrder(Polled(rest, nowMs).1, rest.frames, b.frames, lo);
    }
  }

  lemma {:induction false} FullInterval(s: set<nat>, base: nat, n: nat)
    requires |s| >= n && forall k :: k in s ==> base <= k < base + n
    ensures forall k :: base <= k < base + n ==> k in s
    decreases n
  {
    if n == 0 {
    } else {
      var top := base + n - 1;
      if top !in s {
        KeysWithin(s, base, n - 1);
      } else {
        var rest := s - {top};
        assert |rest| == |s| - 1;
        FullInterval(rest, base, n - 1);
        forall k | base <= k < top ensures k in s {
          assert k in rest;
        }
      }
    }
  }

  lemma HeldCanDrain(full: Buffer, frames: seq<VideoFrame>, base: nat, start: nat, pollMs: nat)
    requires IsStream(frames, base)
    requires Holds(full, frames, base, start)
    requires forall k :: base <= k < base + |frames| ==> k in full.frames
    requires forall k :: k in full.frames ==> full.frames[k].arrivalMs + 500 <= pollMs
    ensures CanDrain(full, base, base + |frames|, pollMs)
  {
    assert base in full.frames && full.frames[base].frame == frames[0];
  }

  /** Frames in key order are the stream's frames in stream order. */
  lemma NamedInOrder(out: seq<FrameBuffer>, held: Frames, frames: seq<VideoFrame>, base: nat)
    requires InOrder(out, held, base) && |out| == |frames|
    requires forall k :: k in held ==> base <= k < base + |frames| && held[k].frame == frames[k - base]
    ensures forall i :: 0 <= i < |frames| ==> out[i].frame == frames[i]
  {
    forall i | 0 <= i < |frames| ensures out[i].frame == frames[i] {
      var k := base + i;
      assert k in held && out[k - base] == held[k];
    }
  }

  lemma HeldDrains(full: Buffer, frames: seq<VideoFrame>, base: nat, start: nat, pollMs: nat)
    requires IsStream(frames, base) && Holds(full, frames, base, start)
    requires forall k :: base <= k < base + |frames| ==> k in full.frames
    requires forall k :: k in full.frames ==> full.frames[k].arrivalMs + 500 <= pollMs
    ensures |Polled(full, pollMs).1| == |frames|
    ensures forall i :: 0 <= i < |frames| ==> Polled(full, pollMs).1[i].frame == frames[i]
    ensures Polled(full, pollMs).0.frames == map[]
  {
    HeldCanDrain(full, frames, base, start, pollMs);
    DrainsInOrder(full, base, base + |frames|, pollMs);
    NamedInOrder(Polled(full, pollMs).1, full.frames, frames, base);
  }

  lemma AfterAppend(b: Buffer, events: seq<Event>, event: Event)
    ensures After(b, events + [event]) == Step(After(b, events), event).buffer
    ensures Decoded(b, events + [event]) == Decoded(b, events) + Step(After(b, events), event).out
  {
    assert (events + [event])[..|events|] == events;
  }

  /** A poll decodes no more frames than are held. */
  lemma {:induction false} DecodesAtMostHeld(b: Buffer, nowMs: nat)
    ensures |Polled(b, nowMs).1| <= |b.frames|
    decreases |b.frames|
  {
    var next := NextDecodable(b);
    if next.None? || !IsReady(b, next.value, nowMs) {
    } else {
      DecodesAtMostHeld(Release(b, next.value), nowMs);
    }
  }

  /** The output is exactly the stream, in sequence order. */
  ghost predicate IsWholeStream(out: seq<FrameBuffer>, frames: seq<VideoFrame>) {
    |out| == |frames| && forall i :: 0 <= i < |frames| ==> out[i].frame == frames[i]
  }

  lemma HeldDrainsIff(full: Buffer, frames: seq<VideoFrame>, base: nat, start: nat, pollMs: nat)
    requires IsStream(frames, base) && Holds(full, frames, base, start)
    requires forall k :: k in full.frames ==> full.frames[k].arrivalMs + 500 <= pollMs
    ensures IsWholeStream(Polled(full, pollMs).1, frames) <==> |full.frames.Keys| == |frames|
    ensures |full.frames.Keys| == |frames| ==> Polled(full, pollMs).0.frames == map[]
  {
    assert |full.frames.Keys| == |full.frames|;
    KeysWithin(full.frames.Keys, base, |frames|);
    DecodesAtMostHeld(full, pollMs);
    if |full.frames.Keys| == |frames| {
      FullInterval(full.frames.Keys, base, |frames|);
      HeldDrains(full, frames, base, start, pollMs);
    }
  }

  /**
   Exactly when arrival order does not matter: from a fresh or flushed buffer, a burst of frames of a
   consecutive stream whose lowest is a keyframe, all within less than 10 ms and polled at least 500 ms
   after the last, decodes to exactly the stream in sequence order if and only if as many frames wait
   at the end as the stream has.
   */
  lemma OrderDoesNotMatter(b: Buffer, frames: seq<VideoFrame>, base: nat, arrivals: seq<Event>, start: nat, pollMs: nat)
    requires IsIdle(b) && IsStream(frames, base) && IsBurst(frames, arrivals, start)
    requires forall i :: 0 <= i < |arrivals| ==> arrivals[i].atMs + 500 <= pollMs
    ensures IsWholeStream(Decoded(b, arrivals + [Poll(pollMs)]), frames) <==> |Waiting(arrivals)| == |frames|
    ensures |Waiting(arrivals)| == |frames| ==> After(b, arrivals + [Poll(pollMs)]).frames == map[]
  {
    var full := After(b, arrivals);
    BurstIsHeld(b, frames, base, arrivals, start);
    HeldArrivals(b, arrivals, pollMs);
    HeldDrainsIff(full, frames, base, start, pollMs);
    AfterAppend(b, arrivals, Poll(pollMs));
    assert [] + Polled(full, pollMs).1 == Polled(full, pollMs).1;
  }

  // ----- permutations, and bursts with repeats ------------------------------------------------

  /** Every frame of the stream arrives at least once. */
  ghost predicate Complete(frames: seq<VideoFrame>, arrivals: seq<Event>) {
    forall i :: 0 <= i < |frames| ==> Arrived(frames[i], arrivals)
  }

  ghost predicate Arrived(frame: VideoFrame, arrivals: seq<Event>) {
    exists j :: 0 <= j < |arrivals| && arrivals[j].InsertFrame? && arrivals[j].frame == frame
  }

  /** Numbers of stream frames only, at most `n` of them. */
  ghost predicate IsPartOf(waiting: set<nat>, frames: seq<VideoFrame>, base: nat, n: nat) {
    |waiting| <= n && forall k :: k in waiting ==> base <= k < base + |frames|
  }

  lemma OneMoreWaits(waiting: set<nat>, frames: seq<VideoFrame>, base: nat, n: nat, frame: VideoFrame)
    requires IsStream(frames, base) && frame in frames && IsPartOf(waiting, frames, base, n)
    requires n < 200 || |frames| < 200
    ensures NextWaiting(waiting, frame) == waiting + {frame.sequenceNumber}
    ensures IsPartOf(NextWaiting(waiting, frame), frames, base, n + 1)
  {
    KeysWithin(waiting, base, |frames|);
    var i :| 0 <= i < |frames| && frames[i] == frame;
  }

  /** While the buffer cannot be full, every arrival waits. */
  lemma {:induction false} AllWait(frames: seq<VideoFrame>, base: nat, arrivals: seq<Event>, start: nat)
    requires IsStream(frames, base) && IsBurst(frames, arrivals, start)
    requires |arrivals| <= 200 || |frames| < 200
    ensures IsPartOf(Waiting(arrivals), frames, base, |arrivals|)
    ensures forall j :: 0 <= j < |arrivals| ==> arrivals[j].frame.sequenceNumber in Waiting(arrivals)
    decreases |arrivals|
  {
    if arrivals == [] {
    } else {
      var n := |arrivals| - 1;
      var before := arrivals[..n];
      BurstPrefix(frames, arrivals, start, n);
      AllWait(frames, base, before, start);
      OneMoreWaits(Waiting(before), frames, base, n, arrivals[n].frame);
      forall j | 0 <= j < n ensures arrivals[j].frame.sequenceNumber in Waiting(before) {
        assert before[j] == arrivals[j];
      }
    }
  }

  /** Any permutation of at most 200 frames, and any burst of fewer with repeats, waits completely. */
  lemma CompleteBurstsWait(frames: seq<VideoFrame>, base: nat, arrivals: seq<Event>, start: nat)
    requires IsStream(frames, base) && IsBurst(frames, arrivals, start) && Complete(frames, arrivals)
    requires |arrivals| <= 200 || |frames| < 200
    ensures |Waiting(arrivals)| == |frames|
  {
    AllWait(frames, base, arrivals, start);
    KeysWithin(Waiting(arrivals), base, |frames|);
    forall k | base <= k < base + |frames| ensures k in Waiting(arrivals) {
      assert Arrived(frames[k - base], arrivals);
    }
    IntervalSize(Waiting(arrivals), base, |frames|);
  }

  lemma {:induction false} IntervalSize(s: set<nat>, base: nat, n: nat)
    requires forall k :: base <= k < base + n ==> k in s
    ensures |s| >= n
  {
    if n == 0 {
    } else {
      var top := base + n - 1;
      IntervalSize(s - {top}, base, n - 1);
    }
  }

  /** So any arrival order of those decodes to the stream in sequence order. */
  lemma AnyOrderDecodes(b: Buffer, frames: seq<VideoFrame>, base: nat, arrivals: seq<Event>, start: nat, pollMs: nat)
    requires IsIdle(b) && IsStream(frames, base) && IsBurst(frames, arrivals, start) && Complete(frames, arrivals)
    requires |arrivals| <= 200 || |frames| < 200
    requires forall i :: 0 <= i < |arrivals| ==> arrivals[i].atMs + 500 <= pollMs
    ensures IsWholeStream(Decoded(b, arrivals + [Poll(pollMs)]), frames)
  {
    CompleteBurstsWait(frames, base, arrivals, start);
    OrderDoesNotMatter(b, frames, base, arrivals, start, pollMs);
  }

  lemma {:induction false} HeldArrivals(b: Buffer, arrivals: seq<Event>, pollMs: nat)
    requires IsIdle(b)
    requires forall i :: 0 <= i < |arrivals| ==> arrivals[i].InsertFrame? && arrivals[i].atMs + 500 <= pollMs
    ensures forall k :: k in After(b, arrivals).frames ==> After(b, arrivals).frames[k].arrivalMs + 500 <= pollMs
    decreases |arrivals|
  {
    if arrivals == [] {
    } else {
      var n := |arrivals| - 1;
      var before := arrivals[..n];
      HeldArrivals(b, before, pollMs);
      StepSource(After(b, before), arrivals[n]);
      forall k | k in After(b, arrivals).frames ensures After(b, arrivals).frames[k].arrivalMs + 500 <= pollMs {
        assert After(b, arrivals).frames[k] in After(b, arrivals).frames.Values;
        assert FromStep(After(b, before), arrivals[n], After(b, arrivals).frames[k]);
      }
    }
  }
}
