/** The ordered packet buffer of NetEq (neteq/src/buffer.rs, neteq/src/packet.rs). */
module PacketBuffers {
  import opened Numbers

  type U32 = n: nat | n <= U32_MAX

  /**
   A received packet. `pcm` stands for what the registered decoder yields for the payload
   (nothing on a decode error); times are in nanoseconds.
   */
  datatype Packet = Packet(sequence: nat, timestamp: U32, ssrc: nat, sampleRate: nat, channels: nat,
                           durationMs: nat, arrival: nat, pcm: seq<real>)
  {
    function ExpectedSamples(): nat { sampleRate * durationMs / 1000 * channels }

    predicate IsOlderThan(maxAge: nat, now: nat) { now - arrival > maxAge }

    /** Header equality as the duplicate test sees it. */
    predicate SameHeader(other: Packet) {
      timestamp == other.timestamp && sequence == other.sequence && ssrc == other.ssrc
    }
  }

  datatype Config = Config(maxPackets: nat, thresholdMs: nat, multiplier: nat, maxAge: nat)

  // ===== order ========================================================================

  ghost predicate Sorted(b: seq<Packet>) {
    forall i, j :: 0 <= i < j < |b| ==> b[i].timestamp <= b[j].timestamp
  }

  ghost predicate StrictlySorted(b: seq<Packet>) {
    forall i, j :: 0 <= i < j < |b| ==> b[i].timestamp < b[j].timestamp
  }

  /** Everything before `pos` is at or below the timestamp, everything from `pos` on above it. */
  ghost predicate IsUpperBound(b: seq<Packet>, timestamp: nat, pos: nat) {
    && pos <= |b|
    && (forall i :: 0 <= i < pos ==> b[i].timestamp <= timestamp)
    && (forall i :: pos <= i < |b| ==> timestamp < b[i].timestamp)
  }

  method FindInsertPosition(b: seq<Packet>, timestamp: nat) returns (pos: nat)
    requires Sorted(b)
    ensures IsUpperBound(b, timestamp, pos)
  {
    var low, high := 0, |b|;
    while low < high
      invariant 0 <= low <= high <= |b|
      invariant forall i :: 0 <= i < low ==> b[i].timestamp <= timestamp
      invariant forall i :: high <= i < |b| ==> timestamp < b[i].timestamp
    {
      var mid := (low + high) / 2;
      if b[mid].timestamp <= timestamp {
        low := mid + 1;
      } else {
        high := mid;
      }
    }
    pos := low;
  }

  /** The insert position as a function: how many packets are at or below the timestamp. */
  ghost function UpperBound(b: seq<Packet>, timestamp: nat): (pos: nat)
    ensures pos <= |b|
  {
    if b == [] then 0
    else if b[|b| - 1].timestamp <= timestamp then |b|
    else UpperBound(b[..|b| - 1], timestamp)
  }

  lemma {:induction false} UpperBoundIs(b: seq<Packet>, timestamp: nat)
    requires Sorted(b)
    ensures IsUpperBound(b, timestamp, UpperBound(b, timestamp))
  {
    if b == [] || b[|b| - 1].timestamp <= timestamp {
    } else {
      UpperBoundIs(b[..|b| - 1], timestamp);
    }
  }

  function TimestampAt(b: seq<Packet>, i: nat): nat { if i < |b| then b[i].timestamp else 0 }

  lemma UpperBoundUnique(b: seq<Packet>, timestamp: nat, p: nat, q: nat)
    requires IsUpperBound(b, timestamp, p) && IsUpperBound(b, timestamp, q)
    ensures p == q
  {
    var atP, atQ := TimestampAt(b, p), TimestampAt(b, q);
  }

  function InsertAt(b: seq<Packet>, pos: nat, p: Packet): seq<Packet>
    requires pos <= |b|
  {
    b[..pos] + [p] + b[pos..]
  }

  lemma InsertKeepsSorted(b: seq<Packet>, pos: nat, p: Packet)
    requires Sorted(b) && IsUpperBound(b, p.timestamp, pos)
    ensures Sorted(InsertAt(b, pos, p))
    ensures multiset(InsertAt(b, pos, p)) == multiset(b) + multiset{p}
  {
    assert b == b[..pos] + b[pos..];
  }

  // ===== duplicates ===================================================================

  /** The three-probe test around the insert position. */
  predicate IsDuplicate(b: seq<Packet>, p: Packet, pos: nat) {
    var before := if pos > 0 then pos - 1 else 0;
    var last := if |b| > 0 then |b| - 1 else 0;
    var after := if pos + 1 <= last then pos + 1 else last;
    || (before < |b| && b[before].SameHeader(p))
    || (pos < |b| && b[pos].SameHeader(p))
    || (after < |b| && b[after].SameHeader(p))
  }

  ghost predicate HasDuplicate(b: seq<Packet>, p: Packet) {
    exists i :: 0 <= i < |b| && b[i].SameHeader(p)
  }

  /** The test sees exactly the last packet at or below the timestamp. */
  lemma ProbesSeeOnePacket(b: seq<Packet>, p: Packet, pos: nat)
    requires Sorted(b) && IsUpperBound(b, p.timestamp, pos)
    ensures IsDuplicate(b, p, pos) <==> pos > 0 && b[pos - 1].SameHeader(p)
  {
  }

  /** Packets with the same timestamp carry the same sequence number and source. */
  ghost predicate Consistent(b: seq<Packet>, p: Packet) {
    forall i :: 0 <= i < |b| && b[i].timestamp == p.timestamp ==> b[i].SameHeader(p)
  }

  /** Packets of the buffer with equal timestamps have equal headers. */
  ghost predicate HeadersAgree(b: seq<Packet>) {
    forall i, j :: 0 <= i < j < |b| && b[i].timestamp == b[j].timestamp ==> b[i].SameHeader(b[j])
  }

  ghost predicate TestIsExact(b: seq<Packet>, p: Packet, pos: nat) {
    IsUpperBound(b, p.timestamp, pos) ==> (IsDuplicate(b, p, pos) <==> HasDuplicate(b, p))
  }

  lemma AgreeingIsExact(b: seq<Packet>, p: Packet, pos: nat)
    requires Sorted(b) && HeadersAgree(b) && IsUpperBound(b, p.timestamp, pos)
    ensures IsDuplicate(b, p, pos) <==> HasDuplicate(b, p)
  {
    ProbesSeeOnePacket(b, p, pos);
    if HasDuplicate(b, p) {
      var i :| 0 <= i < |b| && b[i].SameHeader(p);
      assert i < pos;
      if i < pos - 1 {
        assert b[i].timestamp <= b[pos - 1].timestamp <= p.timestamp;
        assert b[i].SameHeader(b[pos - 1]);
      }
    }
  }

  /** The last packet with the timestamp of `b[i]`, at the upper bound. */
  lemma LastEqual(b: seq<Packet>, i: nat, j: nat, pos: nat)
    requires Sorted(b) && i < j < |b| && b[i].timestamp == b[j].timestamp && IsUpperBound(b, b[i].timestamp, pos)
    ensures j < pos && b[pos - 1].timestamp == b[i].timestamp
  {
    var atPos := TimestampAt(b, pos);
    assert j < pos;
    assert b[j].timestamp <= b[pos - 1].timestamp;
  }

  lemma ExactImpliesAgree(b: seq<Packet>, i: nat, j: nat)
    requires Sorted(b) && forall p: Packet, pos: nat :: TestIsExact(b, p, pos)
    requires i < j < |b| && b[i].timestamp == b[j].timestamp
    ensures b[i].SameHeader(b[j])
  {
    var pos := UpperBound(b, b[i].timestamp);
    UpperBoundIs(b, b[i].timestamp);
    LastEqual(b, i, j, pos);
    forall k: nat | k < |b| && b[k].timestamp == b[i].timestamp ensures b[pos - 1].SameHeader(b[k]) {
      assert TestIsExact(b, b[k], pos);
      ProbesSeeOnePacket(b, b[k], pos);
      assert b[k].SameHeader(b[k]);
    }
  }

  /** The three probes find every duplicate of every packet exactly when equal timestamps in the buffer mean equal headers. */
  lemma DuplicateTestExactIff(b: seq<Packet>)
    requires Sorted(b)
    ensures (forall p: Packet, pos: nat :: TestIsExact(b, p, pos)) <==> HeadersAgree(b)
  {
    if HeadersAgree(b) {
      forall p: Packet, pos: nat ensures TestIsExact(b, p, pos) {
        if IsUpperBound(b, p.timestamp, pos) {
          AgreeingIsExact(b, p, pos);
        }
      }
    }
    if forall p: Packet, pos: nat :: TestIsExact(b, p, pos) {
      forall i: nat, j: nat | i < j < |b| && b[i].timestamp == b[j].timestamp ensures b[i].SameHeader(b[j]) {
        ExactImpliesAgree(b, i, j);
      }
    }
  }

  /** Under consistent headers the test is a full search. */
  lemma DuplicateTestIsFullSearch(b: seq<Packet>, p: Packet, pos: nat)
    requires Sorted(b) && IsUpperBound(b, p.timestamp, pos) && Consistent(b, p)
    ensures IsDuplicate(b, p, pos) <==> HasDuplicate(b, p)
    ensures HasDuplicate(b, p) <==> exists i :: 0 <= i < |b| && b[i].timestamp == p.timestamp
  {
    ProbesSeeOnePacket(b, p, pos);
    if i :| 0 <= i < |b| && b[i].timestamp == p.timestamp {
      assert b[i].SameHeader(p) && i < pos;
      assert i < pos - 1 ==> b[i].timestamp <= b[pos - 1].timestamp;
    }
  }

  /** A duplicate hidden behind another packet with the same timestamp is missed. */
  lemma HiddenDuplicateIsMissed(p: Packet, q: Packet)
    requires p.timestamp == q.timestamp && p.sequence != q.sequence
    ensures HasDuplicate([p, q], p) && IsUpperBound([p, q], p.timestamp, 2) && !IsDuplicate([p, q], p, 2)
  {
    assert [p, q][0].SameHeader(p);
  }

  lemma InsertKeepsStrict(b: seq<Packet>, pos: nat, p: Packet)
    requires StrictlySorted(b) && IsUpperBound(b, p.timestamp, pos) && Consistent(b, p) && !IsDuplicate(b, p, pos)
    ensures StrictlySorted(InsertAt(b, pos, p))
  {
    DuplicateTestIsFullSearch(b, p, pos);
  }

  // ===== removal ======================================================================

  /** Packets that satisfy the age or timestamp test, in order, and the others. */
  ghost function Kept(b: seq<Packet>, keep: Packet -> bool): seq<Packet> {
    if b == [] then []
    else if keep(b[|b| - 1]) then Kept(b[..|b| - 1], keep) + [b[|b| - 1]]
    else Kept(b[..|b| - 1], keep)
  }

  ghost function Rejected(b: seq<Packet>, keep: Packet -> bool): seq<Packet> {
    if b == [] then []
    else if keep(b[|b| - 1]) then Rejected(b[..|b| - 1], keep)
    else Rejected(b[..|b| - 1], keep) + [b[|b| - 1]]
  }

  lemma {:induction false} KeptMultiset(b: seq<Packet>, keep: Packet -> bool)
    ensures multiset(b) == multiset(Kept(b, keep)) + multiset(Rejected(b, keep))
    ensures |Kept(b, keep)| <= |b|
  {
    if b == [] {
    } else {
      var front := b[..|b| - 1];
      assert b == front + [b[|b| - 1]];
      KeptMultiset(front, keep);
    }
  }

  lemma {:induction false} KeptMembers(b: seq<Packet>, keep: Packet -> bool)
    ensures forall p :: p in Kept(b, keep) ==> p in b && keep(p)
  {
    if b == [] {
    } else {
      KeptMembers(b[..|b| - 1], keep);
    }
  }

  lemma {:induction false} KeptSorted(b: seq<Packet>, keep: Packet -> bool)
    ensures Sorted(b) ==> Sorted(Kept(b, keep))
    ensures StrictlySorted(b) ==> StrictlySorted(Kept(b, keep))
  {
    if b == [] {
    } else {
      var front := b[..|b| - 1];
      KeptSorted(front, keep);
      KeptMembers(front, keep);
      var k := Kept(front, keep);
      forall i | 0 <= i < |k|
        ensures Sorted(b) ==> k[i].timestamp <= b[|b| - 1].timestamp
        ensures StrictlySorted(b) ==> k[i].timestamp < b[|b| - 1].timestamp
      {
        assert k[i] in front;
      }
    }
  }

  // ----- partial flush ------------------------------------------------------------------

  /** Total duration of the newest `j` packets. */
  ghost function NewestDuration(b: seq<Packet>, j: nat): nat
    requires j <= |b|
  {
    if j == 0 then 0 else NewestDuration(b, j - 1) + b[|b| - j].durationMs
  }

  /** Total duration of all packets. */
  ghost function TotalDuration(b: seq<Packet>): nat {
    if b == [] then 0 else b[0].durationMs + TotalDuration(b[1..])
  }

  /** The newest `j` packets last as long as the suffix they form. */
  lemma {:induction false} NewestIsSuffix(b: seq<Packet>, j: nat)
    requires j <= |b|
    ensures NewestDuration(b, j) == TotalDuration(b[|b| - j..])
  {
    if j == 0 {
    } else {
      NewestIsSuffix(b, j - 1);
      assert b[|b| - j..][1..] == b[|b| - (j - 1)..];
    }
  }

  ghost function KeepFrom(b: seq<Packet>, targetMs: nat, j: nat): (k: nat)
    requires 0 < j <= |b|
    ensures j <= k <= |b|
    decreases |b| - j
  {
    if NewestDuration(b, j) >= targetMs || j == |b| then j else KeepFrom(b, targetMs, j + 1)
  }

  /** How many of the newest packets a partial flush to `targetMs` keeps. */
  ghost function KeepCount(b: seq<Packet>, targetMs: nat): (k: nat)
    ensures k <= |b|
    ensures b != [] ==> k > 0
  {
    if b == [] then 0 else KeepFrom(b, targetMs, 1)
  }

  lemma {:induction false} KeepFromIsShortest(b: seq<Packet>, targetMs: nat, j: nat)
    requires 0 < j <= |b|
    ensures var k := KeepFrom(b, targetMs, j);
      && (NewestDuration(b, k) >= targetMs || k == |b|)
      && forall i :: j <= i < k ==> NewestDuration(b, i) < targetMs
    decreases |b| - j
  {
    if NewestDuration(b, j) >= targetMs || j == |b| {
    } else {
      KeepFromIsShortest(b, targetMs, j + 1);
    }
  }

  /** The kept packets are the shortest nonempty suffix that reaches the target, or all of them. */
  lemma KeepCountIsShortest(b: seq<Packet>, targetMs: nat)
    requires b != []
    ensures var k := KeepCount(b, targetMs);
      && (NewestDuration(b, k) >= targetMs || k == |b|)
      && forall j :: 0 < j < k ==> NewestDuration(b, j) < targetMs
  {
    KeepFromIsShortest(b, targetMs, 1);
  }

  /** What an operation leaves, what it discards one by one, and what a full flush throws away. */
  datatype Change = Change(buffer: seq<Packet>, discarded: seq<Packet>, flushed: seq<Packet>)

  ghost function PartiallyFlushed(b: seq<Packet>, targetMs: nat): Change {
    var k := KeepCount(b, targetMs);
    Change(b[|b| - k..], b[..|b| - k], [])
  }

  ghost function DroppedStale(b: seq<Packet>, maxAge: nat, now: nat): Change {
    var keep := (p: Packet) => !p.IsOlderThan(maxAge, now);
    Change(Kept(b, keep), Rejected(b, keep), [])
  }

  /** Timestamp span in milliseconds at the first packet's rate. */
  function SpanMs(b: seq<Packet>): nat
    requires forall i :: 0 <= i < |b| ==> b[i].sampleRate > 0
  {
    if b == [] then 0
    else
      var oldest, newest := b[0].timestamp, b[|b| - 1].timestamp;
      var span := if newest >= oldest then newest - oldest else U32_MAX - oldest + newest + 1;
      span * 1000 / b[0].sampleRate
  }

  ghost predicate RatesOk(b: seq<Packet>) {
    forall i :: 0 <= i < |b| ==> b[i].sampleRate > 0
  }

  predicate ShouldSmartFlush(b: seq<Packet>, config: Config, targetMs: nat)
    requires forall i :: 0 <= i < |b| ==> b[i].sampleRate > 0
  {
    b != [] && SpanMs(b) > Max(config.thresholdMs, targetMs) * config.multiplier
  }

  function Then(first: Change, second: Change): Change {
    Change(second.buffer, first.discarded + second.discarded, first.flushed + second.flushed)
  }

  ghost function SmartFlushed(b: seq<Packet>, config: Config, targetMs: nat): Change
    requires RatesOk(b)
  {
    if ShouldSmartFlush(b, config, targetMs) then PartiallyFlushed(b, targetMs) else Change(b, [], [])
  }

  /** At capacity: a partial flush, then a full flush if that is not enough. */
  ghost function OverflowFlushed(b: seq<Packet>, config: Config, targetMs: nat): Change {
    if |b| < config.maxPackets then Change(b, [], [])
    else
      var c := PartiallyFlushed(b, targetMs);
      if |c.buffer| < config.maxPackets then c else Change([], c.discarded, c.buffer)
  }

  ghost function MadeRoom(b: seq<Packet>, config: Config, targetMs: nat): Change
    requires RatesOk(b)
  {
    var c := SmartFlushed(b, config, targetMs);
    Then(c, OverflowFlushed(c.buffer, config, targetMs))
  }

  ghost function Placed(b: seq<Packet>, p: Packet): Change {
    var pos := UpperBound(b, p.timestamp);
    if IsDuplicate(b, p, pos) then Change(b, [p], []) else Change(InsertAt(b, pos, p), [], [])
  }

  /** Stale packets out, then room made. */
  ghost function Prepared(b: seq<Packet>, config: Config, targetMs: nat, now: nat): Change
    requires RatesOk(b)
  {
    var c := DroppedStale(b, config.maxAge, now);
    KeptRates(b, (q: Packet) => !q.IsOlderThan(config.maxAge, now));
    Then(c, MadeRoom(c.buffer, config, targetMs))
  }

  ghost function InsertedPacket(b: seq<Packet>, config: Config, p: Packet, targetMs: nat, now: nat): Change
    requires RatesOk(b)
  {
    var c := Prepared(b, config, targetMs, now);
    Then(c, Placed(c.buffer, p))
  }

  lemma KeptRates(b: seq<Packet>, keep: Packet -> bool)
    requires RatesOk(b)
    ensures RatesOk(Kept(b, keep))
  {
    KeptMembers(b, keep);
    forall i | 0 <= i < |Kept(b, keep)| ensures Kept(b, keep)[i].sampleRate > 0 {
      assert Kept(b, keep)[i] in b;
    }
  }

  // ===== what every change keeps ======================================================

  /** No packet is lost or made up: before = after + discarded + flushed. */
  ghost predicate Conserves(b: seq<Packet>, c: Change) {
    multiset(b) == multiset(c.buffer) + multiset(c.discarded) + multiset(c.flushed)
  }

  /** The buffer after the change is made of packets from before, in the same order. */
  ghost predicate KeepsOrder(b: seq<Packet>, c: Change) {
    && (forall p :: p in c.buffer ==> p in b)
    && (Sorted(b) ==> Sorted(c.buffer))
    && (StrictlySorted(b) ==> StrictlySorted(c.buffer))
    && |c.buffer| <= |b|
  }

  ghost predicate Shrinks(b: seq<Packet>, c: Change) { Conserves(b, c) && KeepsOrder(b, c) }

  lemma SuffixMembers(b: seq<Packet>, n: nat)
    requires n <= |b|
    ensures forall p :: p in b[n..] ==> p in b
  {
    forall p | p in b[n..] ensures p in b {
      var i :| 0 <= i < |b[n..]| && b[n..][i] == p;
      assert b[n + i] == p;
    }
  }

  /** Dropping a prefix. */
  lemma SuffixShrinks(b: seq<Packet>, n: nat, c: Change)
    requires n <= |b| && c == Change(b[n..], b[..n], [])
    ensures Shrinks(b, c)
  {
    assert Conserves(b, c) by {
      assert b == b[..n] + b[n..];
    }
    SuffixMembers(b, n);
  }

  lemma PartialFlushShrinks(b: seq<Packet>, targetMs: nat)
    ensures Shrinks(b, PartiallyFlushed(b, targetMs))
  {
    SuffixShrinks(b, |b| - KeepCount(b, targetMs), PartiallyFlushed(b, targetMs));
  }

  lemma DropStaleShrinks(b: seq<Packet>, maxAge: nat, now: nat)
    ensures Shrinks(b, DroppedStale(b, maxAge, now))
  {
    var keep := (p: Packet) => !p.IsOlderThan(maxAge, now);
    KeptMultiset(b, keep);
    KeptMembers(b, keep);
    KeptSorted(b, keep);
  }

  lemma ThenShrinks(b: seq<Packet>, first: Change, second: Change)
    requires Shrinks(b, first) && Shrinks(first.buffer, second)
    ensures Shrinks(b, Then(first, second))
  {
  }

  lemma OverflowShrinks(b: seq<Packet>, config: Config, targetMs: nat)
    ensures Shrinks(b, OverflowFlushed(b, config, targetMs))
    ensures config.maxPackets > 0 ==> |OverflowFlushed(b, config, targetMs).buffer| < config.maxPackets
  {
    PartialFlushShrinks(b, targetMs);
  }

  lemma MadeRoomShrinks(b: seq<Packet>, config: Config, targetMs: nat)
    requires RatesOk(b)
    ensures Shrinks(b, MadeRoom(b, config, targetMs))
    ensures config.maxPackets > 0 ==> |MadeRoom(b, config, targetMs).buffer| < config.maxPackets
  {
    PartialFlushShrinks(b, targetMs);
    var c := SmartFlushed(b, config, targetMs);
    OverflowShrinks(c.buffer, config, targetMs);
    ThenShrinks(b, c, OverflowFlushed(c.buffer, config, targetMs));
  }

  lemma PlacedConserves(b: seq<Packet>, p: Packet)
    requires Sorted(b)
    ensures var c := Placed(b, p);
      multiset(b) + multiset{p} == multiset(c.buffer) + multiset(c.discarded) && c.flushed == []
  {
    UpperBoundIs(b, p.timestamp);
    InsertKeepsSorted(b, UpperBound(b, p.timestamp), p);
  }

  lemma PlacedKeepsOrder(b: seq<Packet>, p: Packet)
    requires Sorted(b)
    ensures var c := Placed(b, p);
      && Sorted(c.buffer) && |c.buffer| <= |b| + 1
      && (StrictlySorted(b) && Consistent(b, p) ==> StrictlySorted(c.buffer))
      && (forall q :: q in c.buffer ==> q in b || q == p)
  {
    var pos := UpperBound(b, p.timestamp);
    UpperBoundIs(b, p.timestamp);
    InsertKeepsSorted(b, pos, p);
    if StrictlySorted(b) && Consistent(b, p) && !IsDuplicate(b, p, pos) {
      InsertKeepsStrict(b, pos, p);
    }
  }

  lemma PreparedShrinks(b: seq<Packet>, config: Config, targetMs: nat, now: nat)
    requires RatesOk(b)
    ensures Shrinks(b, Prepared(b, config, targetMs, now))
    ensures config.maxPackets > 0 ==> |Prepared(b, config, targetMs, now).buffer| < config.maxPackets
  {
    var c := DroppedStale(b, config.maxAge, now);
    DropStaleShrinks(b, config.maxAge, now);
    KeptRates(b, (q: Packet) => !q.IsOlderThan(config.maxAge, now));
    MadeRoomShrinks(c.buffer, config, targetMs);
    ThenShrinks(b, c, MadeRoom(c.buffer, config, targetMs));
  }

  lemma MultisetShuffle(held: multiset<Packet>, one: multiset<Packet>, out: multiset<Packet>, lost: multiset<Packet>,
                        held': multiset<Packet>, out': multiset<Packet>)
    requires held + one == held' + out'
    ensures held + out + lost + one == held' + (out + out') + lost
  {
    assert held + out + lost + one == (held + one) + out + lost;
    assert held' + (out + out') + lost == (held' + out') + out + lost;
  }

  lemma ThenConserves(b: seq<Packet>, p: Packet, c: Change, d: Change)
    requires Conserves(b, c) && d.flushed == []
    requires multiset(c.buffer) + multiset{p} == multiset(d.buffer) + multiset(d.discarded)
    ensures var e := Then(c, d);
      multiset(b) + multiset{p} == multiset(e.buffer) + multiset(e.discarded) + multiset(e.flushed)
  {
    assert multiset(c.discarded + d.discarded) == multiset(c.discarded) + multiset(d.discarded);
    assert c.flushed + d.flushed == c.flushed;
    MultisetShuffle(multiset(c.buffer), multiset{p}, multiset(c.discarded), multiset(c.flushed),
                    multiset(d.buffer), multiset(d.discarded));
  }

  /** One insert: everything is accounted for. */
  lemma InsertConserves(b: seq<Packet>, config: Config, p: Packet, targetMs: nat, now: nat)
    requires RatesOk(b) && Sorted(b)
    ensures var c := InsertedPacket(b, config, p, targetMs, now);
      multiset(b) + multiset{p} == multiset(c.buffer) + multiset(c.discarded) + multiset(c.flushed)
  {
    PreparedShrinks(b, config, targetMs, now);
    var c := Prepared(b, config, targetMs, now);
    PlacedConserves(c.buffer, p);
    ThenConserves(b, p, c, Placed(c.buffer, p));
  }

  /** One insert: sorted and within capacity; strictly sorted when headers are consistent. */
  lemma InsertKeepsOrder(b: seq<Packet>, config: Config, p: Packet, targetMs: nat, now: nat)
    requires RatesOk(b) && Sorted(b)
    ensures var c := InsertedPacket(b, config, p, targetMs, now);
      && Sorted(c.buffer)
      && (config.maxPackets > 0 ==> |c.buffer| <= config.maxPackets)
      && (StrictlySorted(b) && Consistent(b, p) ==> StrictlySorted(c.buffer))
      && (forall q :: q in c.buffer ==> q in b || q == p)
  {
    PreparedShrinks(b, config, targetMs, now);
    var c := Prepared(b, config, targetMs, now);
    PlacedKeepsOrder(c.buffer, p);
    if Consistent(b, p) {
      ConsistentSubset(b, c.buffer, p);
    }
  }

  lemma {:induction false} KeptAll(b: seq<Packet>, keep: Packet -> bool)
    requires forall i :: 0 <= i < |b| ==> keep(b[i])
    ensures Kept(b, keep) == b && Rejected(b, keep) == []
  {
    if b == [] {
    } else {
      KeptAll(b[..|b| - 1], keep);
      assert b == b[..|b| - 1] + [b[|b| - 1]];
    }
  }

  /** The timestamps span at most `limitMs` milliseconds. */
  ghost predicate SpansAtMost(b: seq<Packet>, limitMs: nat) {
    b == [] ||
    (b[0].timestamp <= b[|b| - 1].timestamp &&
     (b[|b| - 1].timestamp - b[0].timestamp) * 1000 < (limitMs + 1) * b[0].sampleRate)
  }

  /** No packet is past the maximum age, the span is within the multiple of threshold or target, and there is room. */
  ghost predicate Undisturbed(b: seq<Packet>, config: Config, targetMs: nat, now: nat) {
    && (forall i :: 0 <= i < |b| ==> now <= b[i].arrival + config.maxAge)
    && (SpansAtMost(b, config.thresholdMs * config.multiplier) || SpansAtMost(b, targetMs * config.multiplier))
    && |b| < config.maxPackets
  }

  lemma QuotientExceedsIff(x: nat, d: nat, limit: nat)
    requires d > 0
    ensures x / d > limit <==> x >= (limit + 1) * d
  {
    var q := x / d;
    assert x == q * d + x % d;
    if q > limit {
      MulLessEq(d, limit + 1, q);
    } else {
      MulLessEq(d, q, limit);
    }
  }

  /** A smart flush happens exactly when the span exceeds both multiples: of the threshold and of the target. */
  lemma SmartFlushIff(b: seq<Packet>, config: Config, targetMs: nat)
    requires RatesOk(b) && (b != [] ==> b[0].timestamp <= b[|b| - 1].timestamp)
    ensures ShouldSmartFlush(b, config, targetMs) <==>
      !SpansAtMost(b, config.thresholdMs * config.multiplier) && !SpansAtMost(b, targetMs * config.multiplier)
  {
    if b != [] {
      var span, rate := (b[|b| - 1].timestamp - b[0].timestamp) * 1000, b[0].sampleRate;
      QuotientExceedsIff(span, rate, config.thresholdMs * config.multiplier);
      QuotientExceedsIff(span, rate, targetMs * config.multiplier);
      LargerLimit(span / rate, config.thresholdMs, targetMs, config.multiplier);
    }
  }

  lemma LargerLimit(x: nat, a: nat, b: nat, m: nat)
    ensures x > Max(a, b) * m <==> x > a * m && x > b * m
  {
    if a >= b {
      MulLessEq(m, b, a);
    } else {
      MulLessEq(m, a, b);
    }
  }

  lemma NothingStale(b: seq<Packet>, maxAge: nat, now: nat)
    requires forall i :: 0 <= i < |b| ==> !b[i].IsOlderThan(maxAge, now)
    ensures DroppedStale(b, maxAge, now) == Change(b, [], [])
  {
    KeptAll(b, (p: Packet) => !p.IsOlderThan(maxAge, now));
  }

  lemma PreparedUndisturbed(b: seq<Packet>, config: Config, targetMs: nat, now: nat)
    requires RatesOk(b) && Undisturbed(b, config, targetMs, now)
    ensures Prepared(b, config, targetMs, now) == Change(b, [], [])
  {
    NothingStale(b, config.maxAge, now);
    SmartFlushIff(b, config, targetMs);
    assert MadeRoom(b, config, targetMs) == Change(b, [], []);
  }

  lemma PlacedLast(b: seq<Packet>, p: Packet)
    requires forall i :: 0 <= i < |b| ==> b[i].timestamp < p.timestamp
    ensures Placed(b, p) == Change(b + [p], [], [])
  {
    assert UpperBound(b, p.timestamp) == |b|;
    assert InsertAt(b, |b|, p) == b + [p];
  }

  /** The newest packet of an undisturbed buffer goes to its end, and nothing else changes. */
  lemma NewestIsAppended(b: seq<Packet>, config: Config, p: Packet, targetMs: nat, now: nat)
    requires RatesOk(b) && Undisturbed(b, config, targetMs, now)
    requires forall i :: 0 <= i < |b| ==> b[i].timestamp < p.timestamp
    ensures InsertedPacket(b, config, p, targetMs, now) == Change(b + [p], [], [])
  {
    PreparedUndisturbed(b, config, targetMs, now);
    PlacedLast(b, p);
  }

  // ----- what an insert keeps, drops and flushes -----------------------------------------

  lemma PlacedKeeps(b: seq<Packet>, p: Packet)
    requires Sorted(b) && !HasDuplicate(b, p)
    ensures multiset(Placed(b, p).buffer) == multiset(b) + multiset{p}
    ensures Placed(b, p).discarded == [] && Placed(b, p).flushed == []
  {
    var pos := UpperBound(b, p.timestamp);
    UpperBoundIs(b, p.timestamp);
    ProbesSeeOnePacket(b, p, pos);
    assert !IsDuplicate(b, p, pos);
    InsertKeepsSorted(b, pos, p);
  }

  /** A packet that is no duplicate is kept wherever it belongs, reordered or not, and nothing else changes. */
  lemma ReorderedPacketIsKept(b: seq<Packet>, config: Config, p: Packet, targetMs: nat, now: nat)
    requires Sorted(b) && RatesOk(b) && Undisturbed(b, config, targetMs, now) && !HasDuplicate(b, p)
    ensures var c := InsertedPacket(b, config, p, targetMs, now);
      && multiset(c.buffer) == multiset(b) + multiset{p} && Sorted(c.buffer)
      && c.discarded == [] && c.flushed == []
  {
    PreparedUndisturbed(b, config, targetMs, now);
    PlacedKeeps(b, p);
    InsertKeepsOrder(b, config, p, targetMs, now);
  }

  lemma {:induction false} KeptSame(b: seq<Packet>, keep: Packet -> bool, keep': Packet -> bool)
    requires forall p :: keep(p) == keep'(p)
    ensures Kept(b, keep) == Kept(b, keep') && Rejected(b, keep) == Rejected(b, keep')
  {
    if b == [] {
    } else {
      KeptSame(b[..|b| - 1], keep, keep');
    }
  }

  lemma InsertAfterStale(b: seq<Packet>, config: Config, p: Packet, targetMs: nat, now: nat, young: seq<Packet>, stale: seq<Packet>)
    requires RatesOk(b) && DroppedStale(b, config.maxAge, now) == Change(young, stale, [])
    requires Sorted(young) && RatesOk(young) && Undisturbed(young, config, targetMs, now) && !HasDuplicate(young, p)
    ensures var c := InsertedPacket(b, config, p, targetMs, now);
      multiset(c.buffer) == multiset(young) + multiset{p} && c.discarded == stale && c.flushed == []
  {
    SmartFlushIff(young, config, targetMs);
    assert MadeRoom(young, config, targetMs) == Change(young, [], []);
    PlacedKeeps(young, p);
  }

  /** With agreeing headers a duplicate is itself discarded, and the buffer stays as it was. */
  lemma DuplicateIsDiscarded(b: seq<Packet>, config: Config, p: Packet, targetMs: nat, now: nat)
    requires Sorted(b) && RatesOk(b) && Undisturbed(b, config, targetMs, now) && HeadersAgree(b) && HasDuplicate(b, p)
    ensures InsertedPacket(b, config, p, targetMs, now) == Change(b, [p], [])
  {
    PreparedUndisturbed(b, config, targetMs, now);
    UpperBoundIs(b, p.timestamp);
    AgreeingIsExact(b, p, UpperBound(b, p.timestamp));
  }

  /** Exactly the packets past the maximum age go; the others stay, with the new one. */
  lemma YoungPacketsStay(b: seq<Packet>, config: Config, p: Packet, targetMs: nat, now: nat)
    requires Sorted(b) && RatesOk(b)
    requires var young := Kept(b, (q: Packet) => now <= q.arrival + config.maxAge);
      Undisturbed(young, config, targetMs, now) && !HasDuplicate(young, p)
    ensures var c, isYoung := InsertedPacket(b, config, p, targetMs, now), (q: Packet) => now <= q.arrival + config.maxAge;
      && multiset(c.buffer) == multiset(Kept(b, isYoung)) + multiset{p}
      && c.discarded == Rejected(b, isYoung) && c.flushed == []
  {
    var isYoung := (q: Packet) => now <= q.arrival + config.maxAge;
    var notOld := (q: Packet) => !q.IsOlderThan(config.maxAge, now);
    KeptSame(b, isYoung, notOld);
    KeptSorted(b, isYoung);
    KeptRates(b, isYoung);
    InsertAfterStale(b, config, p, targetMs, now, Kept(b, isYoung), Rejected(b, isYoung));
  }

  /** Only packets not older than the maximum age survive an insert. */
  lemma StalePacketsGo(b: seq<Packet>, config: Config, p: Packet, targetMs: nat, now: nat, q: Packet)
    requires Sorted(b) && RatesOk(b) && q in InsertedPacket(b, config, p, targetMs, now).buffer
    ensures q == p || (q in b && now <= q.arrival + config.maxAge)
  {
    var keep := (x: Packet) => !x.IsOlderThan(config.maxAge, now);
    var young := Kept(b, keep);
    KeptMembers(b, keep);
    KeptSorted(b, keep);
    KeptRates(b, keep);
    MadeRoomShrinks(young, config, targetMs);
    PlacedKeepsOrder(MadeRoom(young, config, targetMs).buffer, p);
  }

  /** The newest packets that reach the target: no fewer do, and there are fewer than `cap`. */
  ghost predicate IsShortestEnough(b: seq<Packet>, targetMs: nat, k: nat) {
    && 0 < k <= |b| && (NewestDuration(b, k) >= targetMs || k == |b|)
    && forall j :: 0 < j < k ==> NewestDuration(b, j) < targetMs
  }

  lemma ShortestIsKeepCount(b: seq<Packet>, targetMs: nat, k: nat)
    requires IsShortestEnough(b, targetMs, k)
    ensures KeepCount(b, targetMs) == k
  {
    KeepCountIsShortest(b, targetMs);
  }

  /** A smart flush leaves exactly the newest packets that reach the target, if they fit. */
  lemma SmartFlushKeeps(b: seq<Packet>, config: Config, targetMs: nat, k: nat)
    requires RatesOk(b) && ShouldSmartFlush(b, config, targetMs) && IsShortestEnough(b, targetMs, k) && k < config.maxPackets
    ensures MadeRoom(b, config, targetMs) == Change(b[|b| - k..], b[..|b| - k], [])
  {
    ShortestIsKeepCount(b, targetMs, k);
  }

  /** So does an insert at capacity; if those packets alone fill the buffer, everything is flushed. */
  lemma FullBufferMakesRoom(b: seq<Packet>, config: Config, targetMs: nat, k: nat)
    requires RatesOk(b) && !ShouldSmartFlush(b, config, targetMs)
    requires |b| >= config.maxPackets && IsShortestEnough(b, targetMs, k)
    ensures MadeRoom(b, config, targetMs)
         == if k < config.maxPackets then Change(b[|b| - k..], b[..|b| - k], []) else Change([], b[..|b| - k], b[|b| - k..])
  {
    ShortestIsKeepCount(b, targetMs, k);
  }

  /** The expected samples of all channels, at rates of whole samples per millisecond. */
  lemma ExpectedSamplesAre(p: Packet, perMs: nat)
    requires p.sampleRate == perMs * 1000
    ensures p.ExpectedSamples() == perMs * p.durationMs * p.channels
  {
    assert p.sampleRate * p.durationMs == perMs * p.durationMs * 1000;
  }

  lemma ConsistentSubset(b: seq<Packet>, s: seq<Packet>, p: Packet)
    requires Consistent(b, p) && forall q :: q in s ==> q in b
    ensures Consistent(s, p)
  {
    forall i | 0 <= i < |s| && s[i].timestamp == p.timestamp ensures s[i].SameHeader(p) {
      assert s[i] in b;
    }
  }

  // ===== the class ======================================================================

  /** The discard counter of the statistics; a full flush is not counted there. */
  class Statistics {
    var discardedPackets: nat

    constructor ()
      ensures discardedPackets == 0
    {
      discardedPackets := 0;
    }

    method PacketDiscarded()
      modifies this
      ensures discardedPackets == old(discardedPackets) + 1
    {
      discardedPackets := discardedPackets + 1;
    }
  }

  class PacketBuffer {
    const config: Config
    var buffer: seq<Packet>

    ghost predicate Valid()
      reads this
    {
      Sorted(buffer) && RatesOk(buffer)
    }

    constructor (config: Config)
      ensures Valid() && buffer == [] && this.config == config
    {
      this.config, buffer := config, [];
    }

    method Flush()
      requires Valid()
      modifies this
      ensures Valid() && buffer == []
    {
      buffer := [];
    }

    /** Keeps the packets that satisfy `keep`, in order, and counts the others as discarded. */
    method Retain(keep: Packet -> bool, stats: Statistics)
      requires Valid()
      modifies this, stats
      ensures Valid() && buffer == Kept(old(buffer), keep)
      ensures stats.discardedPackets == old(stats.discardedPackets) + |Rejected(old(buffer), keep)|
    {
      ghost var before := buffer;
      var kept: seq<Packet> := [];
      for i := 0 to |buffer|
        invariant buffer == before
        invariant kept == Kept(before[..i], keep)
        invariant stats.discardedPackets == old(stats.discardedPackets) + |Rejected(before[..i], keep)|
      {
        assert before[..i + 1][..i] == before[..i];
        if keep(buffer[i]) {
          kept := kept + [buffer[i]];
        } else {
          stats.PacketDiscarded();
        }
      }
      assert before[..|before|] == before;
      KeptSorted(before, keep);
      KeptRates(before, keep);
      buffer := kept;
    }

    method DiscardOldPackets(stats: Statistics, now: nat)
      requires Valid()
      modifies this, stats
      ensures Valid()
      ensures var c := DroppedStale(old(buffer), config.maxAge, now);
        buffer == c.buffer && stats.discardedPackets == old(stats.discardedPackets) + |c.discarded|
    {
      Retain((p: Packet) => !p.IsOlderThan(config.maxAge, now), stats);
    }

    method DiscardOldPacketsByTimestamp(limit: U32, stats: Statistics)
      requires Valid()
      modifies this, stats
      ensures Valid() && buffer == Kept(old(buffer), (p: Packet) => p.timestamp >= limit)
      ensures stats.discardedPackets
           == old(stats.discardedPackets) + |Rejected(old(buffer), (p: Packet) => p.timestamp >= limit)|
    {
      Retain((p: Packet) => p.timestamp >= limit, stats);
    }

    method DiscardNextPacket(stats: Statistics)
      requires Valid()
      modifies this, stats
      ensures Valid()
      ensures old(buffer) == [] ==> buffer == [] && stats.discardedPackets == old(stats.discardedPackets)
      ensures old(buffer) != [] ==>
        buffer == old(buffer)[1..] && stats.discardedPackets == old(stats.discardedPackets) + 1
    {
      if buffer != [] {
        buffer := buffer[1..];
        stats.PacketDiscarded();
      }
    }

    method PartialFlush(targetMs: nat, stats: Statistics)
      requires Valid()
      modifies this, stats
      ensures Valid()
      ensures var c := PartiallyFlushed(old(buffer), targetMs);
        buffer == c.buffer && stats.discardedPackets == old(stats.discardedPackets) + |c.discarded|
    {
      if buffer == [] {
        return;
      }
      ghost var b := buffer;
      var currentDuration, keepCount := buffer[|buffer| - 1].durationMs, 1;
      assert NewestDuration(b, 1) == NewestDuration(b, 0) + b[|b| - 1].durationMs;
      while currentDuration < targetMs && keepCount < |buffer|
        invariant 0 < keepCount <= |b| && buffer == b
        invariant currentDuration == NewestDuration(b, keepCount)
        invariant KeepCount(b, targetMs) == KeepFrom(b, targetMs, keepCount)
      {
        keepCount := keepCount + 1;
        currentDuration := currentDuration + buffer[|buffer| - keepCount].durationMs;
      }
      var removeCount := |buffer| - keepCount;
      for i := 0 to removeCount
        invariant buffer == b[i..]
        invariant stats.discardedPackets == old(stats.discardedPackets) + i
      {
        buffer := buffer[1..];
        stats.PacketDiscarded();
      }
    }

    method InsertPacket(p: Packet, stats: Statistics, targetMs: nat, now: nat)
      requires Valid() && p.sampleRate > 0
      modifies this, stats
      ensures Valid()
      ensures var c := InsertedPacket(old(buffer), config, p, targetMs, now);
        buffer == c.buffer && stats.discardedPackets == old(stats.discardedPackets) + |c.discarded|
      ensures config.maxPackets > 0 ==> |buffer| <= config.maxPackets
    {
      ghost var b := buffer;
      InsertKeepsOrder(b, config, p, targetMs, now);
      DiscardOldPackets(stats, now);
      if ShouldSmartFlush(buffer, config, targetMs) {
        PartialFlush(targetMs, stats);
      }
      if |buffer| >= config.maxPackets {
        PartialFlush(targetMs, stats);
        if |buffer| >= config.maxPackets {
          Flush();
        }
      }
      assert buffer == Prepared(b, config, targetMs, now).buffer;
      Place(p, stats);
    }

    method Place(p: Packet, stats: Statistics)
      requires Valid() && p.sampleRate > 0
      modifies this, stats
      ensures Valid()
      ensures var c := Placed(old(buffer), p);
        buffer == c.buffer && stats.discardedPackets == old(stats.discardedPackets) + |c.discarded|
    {
      var pos := FindInsertPosition(buffer, p.timestamp);
      UpperBoundIs(buffer, p.timestamp);
      UpperBoundUnique(buffer, p.timestamp, pos, UpperBound(buffer, p.timestamp));
      if IsDuplicate(buffer, p, pos) {
        stats.PacketDiscarded();
      } else {
        InsertKeepsSorted(buffer, pos, p);
        buffer := InsertAt(buffer, pos, p);
      }
    }

    method GetNextPacket() returns (found: bool, p: Packet)
      requires Valid()
      modifies this
      ensures Valid() && found == (old(buffer) != [])
      ensures found ==> p == old(buffer)[0] && buffer == old(buffer)[1..]
      ensures !found ==> buffer == []
    {
      if buffer == [] {
        found, p := false, Packet(0, 0, 0, 1, 0, 0, 0, []);
      } else {
        found, p, buffer := true, buffer[0], buffer[1..];
      }
    }
  }
}
