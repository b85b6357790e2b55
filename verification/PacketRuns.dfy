/** Whole runs of the packet buffer: order, capacity and conservation of packets. */
module PacketRuns {
  import opened PacketBuffers

  datatype Event =
    | Insert(packet: Packet, targetMs: nat, now: nat)
    | Take
    | DiscardNext
    | DiscardBefore(timestamp: U32)
    | PartialFlush(targetMs: nat)
    | Flush

  /** The buffer and where every offered packet went. */
  datatype Ledger = Ledger(buffer: seq<Packet>, offered: seq<Packet>, handedOut: seq<Packet>,
                           discarded: seq<Packet>, flushed: seq<Packet>)

  const EMPTY: Ledger := Ledger([], [], [], [], [])

  ghost predicate InsertsOk(events: seq<Event>) {
    forall i :: 0 <= i < |events| && events[i].Insert? ==> events[i].packet.sampleRate > 0
  }

  ghost function Changed(l: Ledger, c: Change): Ledger {
    l.(buffer := c.buffer, discarded := l.discarded + c.discarded, flushed := l.flushed + c.flushed)
  }

  ghost function Advance(l: Ledger, config: Config, event: Event): Ledger
    requires RatesOk(l.buffer)
  {
    match event
    case Insert(p, target, now) =>
      Changed(l, InsertedPacket(l.buffer, config, p, target, now)).(offered := l.offered + [p])
    case Take => if l.buffer == [] then l else l.(buffer := l.buffer[1..], handedOut := l.handedOut + [l.buffer[0]])
    case DiscardNext => if l.buffer == [] then l else Changed(l, Change(l.buffer[1..], [l.buffer[0]], []))
    case DiscardBefore(ts) =>
      var keep := (p: Packet) => p.timestamp >= ts;
      Changed(l, Change(Kept(l.buffer, keep), Rejected(l.buffer, keep), []))
    case PartialFlush(target) => Changed(l, PartiallyFlushed(l.buffer, target))
    case Flush => Changed(l, Change([], [], l.buffer))
  }

  ghost predicate Balanced(l: Ledger) {
    multiset(l.offered) == multiset(l.buffer) + multiset(l.handedOut) + multiset(l.discarded) + multiset(l.flushed)
  }

  ghost predicate Good(l: Ledger, config: Config) {
    && Sorted(l.buffer) && RatesOk(l.buffer) && Balanced(l)
    && (config.maxPackets > 0 ==> |l.buffer| <= config.maxPackets)
  }

  lemma ShrinkKeepsGood(l: Ledger, config: Config, c: Change)
    requires Good(l, config) && Shrinks(l.buffer, c)
    ensures Good(Changed(l, c), config)
  {
    forall i | 0 <= i < |c.buffer| ensures c.buffer[i].sampleRate > 0 {
      assert c.buffer[i] in l.buffer;
    }
    assert multiset(l.discarded + c.discarded) == multiset(l.discarded) + multiset(c.discarded);
    assert multiset(l.flushed + c.flushed) == multiset(l.flushed) + multiset(c.flushed);
  }

  /** Booking a change that took in `p` as well. */
  lemma BookInsert(l: Ledger, p: Packet, c: Change)
    requires Balanced(l)
    requires multiset(l.buffer) + multiset{p} == multiset(c.buffer) + multiset(c.discarded) + multiset(c.flushed)
    ensures Balanced(Changed(l, c).(offered := l.offered + [p]))
  {
    assert multiset(l.offered + [p]) == multiset(l.offered) + multiset{p};
    assert multiset(l.discarded + c.discarded) == multiset(l.discarded) + multiset(c.discarded);
    assert multiset(l.flushed + c.flushed) == multiset(l.flushed) + multiset(c.flushed);
    var handed, lost := multiset(l.handedOut), multiset(l.discarded) + multiset(l.flushed);
    assert multiset(l.offered) + multiset{p} == (multiset(l.buffer) + multiset{p}) + handed + lost;
  }

  lemma InsertKeepsGood(l: Ledger, config: Config, p: Packet, targetMs: nat, now: nat)
    requires Good(l, config) && p.sampleRate > 0
    ensures Good(Advance(l, config, Insert(p, targetMs, now)), config)
  {
    var c := InsertedPacket(l.buffer, config, p, targetMs, now);
    InsertConserves(l.buffer, config, p, targetMs, now);
    InsertKeepsOrder(l.buffer, config, p, targetMs, now);
    BookInsert(l, p, c);
    forall i | 0 <= i < |c.buffer| ensures c.buffer[i].sampleRate > 0 {
      assert c.buffer[i] in l.buffer || c.buffer[i] == p;
    }
  }

  lemma FirstOutShrinks(b: seq<Packet>)
    requires b != []
    ensures Shrinks(b, Change(b[1..], [b[0]], []))
  {
    assert b == [b[0]] + b[1..];
  }

  lemma TakeKeepsGood(l: Ledger, config: Config)
    requires Good(l, config) && l.buffer != []
    ensures Good(Advance(l, config, Take), config)
  {
    FirstOutShrinks(l.buffer);
    ShrinkKeepsGood(l, config, Change(l.buffer[1..], [l.buffer[0]], []));
    assert multiset(l.handedOut + [l.buffer[0]]) == multiset(l.handedOut) + multiset{l.buffer[0]};
    assert multiset(l.discarded + [l.buffer[0]]) == multiset(l.discarded) + multiset{l.buffer[0]};
  }

  lemma FilterShrinks(b: seq<Packet>, keep: Packet -> bool)
    ensures Shrinks(b, Change(Kept(b, keep), Rejected(b, keep), []))
  {
    KeptMultiset(b, keep);
    KeptMembers(b, keep);
    KeptSorted(b, keep);
  }

  lemma AdvanceKeepsGood(l: Ledger, config: Config, event: Event)
    requires Good(l, config) && (event.Insert? ==> event.packet.sampleRate > 0)
    ensures Good(Advance(l, config, event), config)
  {
    match event
    case Insert(p, target, now) => InsertKeepsGood(l, config, p, target, now);
    case Take => if l.buffer != [] { TakeKeepsGood(l, config); }
    case DiscardNext =>
      if l.buffer != [] {
        FirstOutShrinks(l.buffer);
        ShrinkKeepsGood(l, config, Change(l.buffer[1..], [l.buffer[0]], []));
      }
    case DiscardBefore(ts) =>
      var keep := (p: Packet) => p.timestamp >= ts;
      FilterShrinks(l.buffer, keep);
      ShrinkKeepsGood(l, config, Change(Kept(l.buffer, keep), Rejected(l.buffer, keep), []));
    case PartialFlush(target) =>
      PartialFlushShrinks(l.buffer, target);
      ShrinkKeepsGood(l, config, PartiallyFlushed(l.buffer, target));
    case Flush =>
      assert Shrinks(l.buffer, Change([], [], l.buffer));
      ShrinkKeepsGood(l, config, Change([], [], l.buffer));
  }

  /** `ls` is the sequence of ledgers of a run: the empty one, then one more per event. */
  ghost predicate IsRun(config: Config, events: seq<Event>, ls: seq<Ledger>) {
    && |ls| == |events| + 1 && ls[0] == EMPTY && InsertsOk(events)
    && forall i :: 0 <= i < |events| ==> RatesOk(ls[i].buffer) && ls[i + 1] == Advance(ls[i], config, events[i])
  }

  /**
   Every run keeps the buffer sorted and within capacity, and every packet ever offered is held,
   handed out, discarded, or was thrown away by a full flush - each exactly once.
   */
  lemma {:induction false} RunsConservePackets(config: Config, events: seq<Event>, ls: seq<Ledger>, n: nat)
    requires IsRun(config, events, ls) && n <= |events|
    ensures Good(ls[n], config)
  {
    if n == 0 {
    } else {
      RunsConservePackets(config, events, ls, n - 1);
      AdvanceKeepsGood(ls[n - 1], config, events[n - 1]);
      assert ls[(n - 1) + 1] == Advance(ls[n - 1], config, events[n - 1]);
    }
  }

  /** Offered packets with equal timestamps have equal sequence numbers and sources. */
  ghost predicate HeadersConsistent(offered: seq<Packet>) {
    forall i, j :: 0 <= i < |offered| && 0 <= j < |offered| && offered[i].timestamp == offered[j].timestamp ==>
      offered[i].SameHeader(offered[j])
  }

  ghost predicate HoldsOffered(l: Ledger) {
    forall p :: p in l.buffer ==> p in l.offered
  }

  lemma AdvanceKeepsStrict(l: Ledger, config: Config, event: Event)
    requires Good(l, config) && (event.Insert? ==> event.packet.sampleRate > 0)
    requires StrictlySorted(l.buffer) && HoldsOffered(l)
    requires HeadersConsistent(Advance(l, config, event).offered)
    ensures StrictlySorted(Advance(l, config, event).buffer) && HoldsOffered(Advance(l, config, event))
  {
    match event
    case Insert(p, target, now) =>
      InsertKeepsOrder(l.buffer, config, p, target, now);
      assert Consistent(l.buffer, p) by {
        var offered := l.offered + [p];
        forall i | 0 <= i < |l.buffer| && l.buffer[i].timestamp == p.timestamp ensures l.buffer[i].SameHeader(p) {
          assert l.buffer[i] in l.offered;
          var k :| 0 <= k < |l.offered| && l.offered[k] == l.buffer[i];
          assert offered[k] == l.buffer[i] && offered[|l.offered|] == p;
        }
      }
    case Take =>
    case DiscardNext =>
    case DiscardBefore(ts) =>
      FilterShrinks(l.buffer, (p: Packet) => p.timestamp >= ts);
    case PartialFlush(target) => PartialFlushShrinks(l.buffer, target);
    case Flush =>
  }

  lemma {:induction false} OfferedGrows(config: Config, events: seq<Event>, ls: seq<Ledger>, m: nat, n: nat)
    requires IsRun(config, events, ls) && m <= n <= |events|
    ensures ls[m].offered <= ls[n].offered
  {
    if m == n {
    } else {
      OfferedGrows(config, events, ls, m, n - 1);
      assert ls[(n - 1) + 1] == Advance(ls[n - 1], config, events[n - 1]);
    }
  }

  /** With consistent headers timestamps never repeat in the buffer, over every run. */
  lemma {:induction false} RunsStayStrict(config: Config, events: seq<Event>, ls: seq<Ledger>, n: nat)
    requires IsRun(config, events, ls) && n <= |events| && HeadersConsistent(ls[n].offered)
    ensures StrictlySorted(ls[n].buffer) && HoldsOffered(ls[n])
  {
    if n == 0 {
    } else {
      OfferedGrows(config, events, ls, n - 1, n);
      RunsStayStrict(config, events, ls, n - 1);
      RunsConservePackets(config, events, ls, n - 1);
      assert ls[(n - 1) + 1] == Advance(ls[n - 1], config, events[n - 1]);
      AdvanceKeepsStrict(ls[n - 1], config, events[n - 1]);
    }
  }

  // ----- the order of arrival does not matter ---------------------------------------------

  datatype Arrival = Arrival(packet: Packet, targetMs: nat, now: nat)

  function PacketsOf(arrivals: seq<Arrival>): seq<Packet> {
    seq(|arrivals|, i requires 0 <= i < |arrivals| => arrivals[i].packet)
  }

  /** `bs` is the buffer before each arrival and after the last: empty at first, never disturbed. */
  ghost predicate IsQuietRun(config: Config, arrivals: seq<Arrival>, bs: seq<seq<Packet>>) {
    && |bs| == |arrivals| + 1 && bs[0] == []
    && forall i: nat :: i < |arrivals| ==> QuietAt(config, arrivals, bs, i)
  }

  ghost predicate QuietAt(config: Config, arrivals: seq<Arrival>, bs: seq<seq<Packet>>, i: nat) {
    && i < |arrivals| && i + 1 < |bs| && arrivals[i].packet.sampleRate > 0 && RatesOk(bs[i])
    && Undisturbed(bs[i], config, arrivals[i].targetMs, arrivals[i].now)
    && bs[i + 1] == InsertedPacket(bs[i], config, arrivals[i].packet, arrivals[i].targetMs, arrivals[i].now).buffer
  }

  ghost predicate DistinctTimestamps(ps: seq<Packet>) {
    forall i, j :: 0 <= i < j < |ps| ==> ps[i].timestamp != ps[j].timestamp
  }

  lemma NoDuplicateYet(ps: seq<Packet>, n: nat, b: seq<Packet>)
    requires DistinctTimestamps(ps) && n < |ps| && multiset(b) == multiset(ps[..n])
    ensures !HasDuplicate(b, ps[n])
  {
    forall i | 0 <= i < |b| ensures !b[i].SameHeader(ps[n]) {
      assert b[i] in multiset(b);
      assert b[i] in ps[..n];
      var j :| 0 <= j < n && ps[..n][j] == b[i];
      assert ps[j].timestamp != ps[n].timestamp;
    }
  }

  lemma QuietStep(config: Config, arrivals: seq<Arrival>, bs: seq<seq<Packet>>, i: nat, ps: seq<Packet>)
    requires IsQuietRun(config, arrivals, bs) && i < |arrivals| && ps == PacketsOf(arrivals) && DistinctTimestamps(ps)
    requires Sorted(bs[i]) && multiset(bs[i]) == multiset(ps[..i])
    ensures Sorted(bs[i + 1]) && multiset(bs[i + 1]) == multiset(ps[..i]) + multiset{ps[i]}
  {
    assert QuietAt(config, arrivals, bs, i);
    NoDuplicateYet(ps, i, bs[i]);
    ReorderedPacketIsKept(bs[i], config, ps[i], arrivals[i].targetMs, arrivals[i].now);
  }

  lemma {:induction false} QuietRunHoldsAll(config: Config, arrivals: seq<Arrival>, bs: seq<seq<Packet>>, n: nat)
    requires IsQuietRun(config, arrivals, bs) && n <= |arrivals| && DistinctTimestamps(PacketsOf(arrivals))
    ensures Sorted(bs[n]) && multiset(bs[n]) == multiset(PacketsOf(arrivals)[..n])
  {
    var ps := PacketsOf(arrivals);
    if n == 0 {
    } else {
      var i := n - 1;
      QuietRunHoldsAll(config, arrivals, bs, i);
      QuietStep(config, arrivals, bs, i, ps);
      assert ps[..n] == ps[..i] + [ps[i]];
    }
  }

  lemma DistinctInMultiset(ps: seq<Packet>, b: seq<Packet>)
    requires DistinctTimestamps(ps) && multiset(b) == multiset(ps) && Sorted(b)
    ensures StrictlySorted(b)
  {
    forall i, j | 0 <= i < j < |b| ensures b[i].timestamp < b[j].timestamp {
      if b[i].timestamp == b[j].timestamp {
        SameTimestampOnce(ps, b[i], b[j]);
        TwiceInSequence(b, i, j);
      }
    }
  }

  /** With distinct timestamps packets of equal timestamp are equal, and each occurs once. */
  lemma {:induction false} SameTimestampOnce(ps: seq<Packet>, p: Packet, q: Packet)
    requires DistinctTimestamps(ps) && p in multiset(ps) && q in multiset(ps) && p.timestamp == q.timestamp
    ensures p == q && multiset(ps)[p] == 1
  {
    var n := |ps| - 1;
    var front, last := ps[..n], ps[n];
    assert ps == front + [last];
    if p == last || q == last {
      forall i | 0 <= i < n ensures front[i].timestamp != last.timestamp {
        assert ps[i].timestamp != ps[n].timestamp;
      }
      assert p !in front && q !in front;
      assert p !in multiset(front);
    } else {
      SameTimestampOnce(front, p, q);
    }
  }

  lemma TwiceInSequence(b: seq<Packet>, i: nat, j: nat)
    requires i < j < |b| && b[i] == b[j]
    ensures multiset(b)[b[i]] >= 2
  {
    assert b == b[..j] + b[j..];
    assert b[i] in b[..j] && b[j..][0] == b[j];
    assert multiset(b)[b[i]] == multiset(b[..j])[b[i]] + multiset(b[j..])[b[i]];
    assert b[i] in multiset(b[..j]) && b[i] in multiset(b[j..]);
  }

  /** Strictly sorted buffers of the same packets are equal. */
  lemma {:induction false} SortedIsUnique(a: seq<Packet>, b: seq<Packet>)
    requires StrictlySorted(a) && StrictlySorted(b) && multiset(a) == multiset(b)
    ensures a == b
  {
    if a == [] {
      assert |multiset(b)| == |b|;
    } else {
      assert b != [] by { assert a[0] in multiset(a); }
      FirstsAgree(a, b);
      RestOf(a);
      RestOf(b);
      SortedIsUnique(a[1..], b[1..]);
    }
  }

  lemma RestOf(a: seq<Packet>)
    requires a != []
    ensures a == [a[0]] + a[1..] && multiset(a[1..]) == multiset(a) - multiset{a[0]}
    ensures StrictlySorted(a) ==> StrictlySorted(a[1..])
  {
    assert a == [a[0]] + a[1..];
  }

  lemma FirstsAgree(a: seq<Packet>, b: seq<Packet>)
    requires StrictlySorted(a) && StrictlySorted(b) && multiset(a) == multiset(b) && a != [] && b != []
    ensures a[0] == b[0]
  {
    assert a[0] in multiset(a) && b[0] in multiset(b);
    assert a[0] in b && b[0] in a;
    var i :| 0 <= i < |b| && b[i] == a[0];
    var j :| 0 <= j < |a| && a[j] == b[0];
  }

  /** Packets of distinct timestamps, undisturbed, end up in the same buffer whatever the order of their arrival. */
  lemma ArrivalOrderDoesNotMatter(config: Config, xs: seq<Arrival>, ys: seq<Arrival>, bs: seq<seq<Packet>>, cs: seq<seq<Packet>>)
    requires IsQuietRun(config, xs, bs) && IsQuietRun(config, ys, cs)
    requires DistinctTimestamps(PacketsOf(xs)) && multiset(PacketsOf(xs)) == multiset(PacketsOf(ys))
    requires DistinctTimestamps(PacketsOf(ys))
    ensures bs[|xs|] == cs[|ys|] && StrictlySorted(bs[|xs|]) && multiset(bs[|xs|]) == multiset(PacketsOf(xs))
  {
    QuietRunHoldsAll(config, xs, bs, |xs|);
    QuietRunHoldsAll(config, ys, cs, |ys|);
    assert PacketsOf(xs)[..|xs|] == PacketsOf(xs) && PacketsOf(ys)[..|ys|] == PacketsOf(ys);
    DistinctInMultiset(PacketsOf(xs), bs[|xs|]);
    DistinctInMultiset(PacketsOf(ys), cs[|ys|]);
    SortedIsUnique(bs[|xs|], cs[|ys|]);
  }
}
