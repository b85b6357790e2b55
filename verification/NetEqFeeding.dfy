/** Runs of inserts, ticks and flushes: every packet and every sample is accounted for. */
module NetEqFeeding {
  import opened PacketBuffers
  import opened NetEqModel
  import opened NetEqRuns
  import opened NetEqs

  /** The audio NetEq holds: leftover samples, packets, stretched samples, expand count. */
  datatype Store = Store(leftover: seq<real>, packets: seq<Packet>, stretched: seq<real>, expands: nat)

  const EMPTY: Store := Store([], [], [], 0)

  ghost function ViewOf(h: Store): View { View(h.leftover + Decoded(h.packets), h.stretched, h.expands) }

  /** Audio held as get_decision measures it. */
  function Available(h: Store): nat { ExpectedTotal(h.packets) + |h.leftover| + |h.stretched| }

  datatype Event = Insert(packet: Packet, targetMs: nat, now: nat) | GetAudio(tick: Tick) | Flush

  /** One call. An insert may reorder, discard stale packets, flush or hit a duplicate. */
  ghost predicate IsStep(s: Setup, config: Config, h: Store, e: Event, h': Store) {
    match e
    case Insert(p, targetMs, now) =>
      && p.sampleRate > 0 && RatesOk(h.packets)
      && h' == h.(packets := InsertedPacket(h.packets, config, p, targetMs, now).buffer)
    case GetAudio(t) =>
      && TickOk(s, t) && t.before == ViewOf(h) && t.after == ViewOf(h')
      && t.available == Available(h) && IsSuffix(h'.packets, h.packets)
    case Flush => h' == EMPTY
  }

  ghost predicate StepsAt(s: Setup, config: Config, events: seq<Event>, hs: seq<Store>, i: nat) {
    i < |events| && i + 1 < |hs| && IsStep(s, config, hs[i], events[i], hs[i + 1])
  }

  /** What is held before each event and after the last; it starts empty. */
  ghost predicate IsEventRun(s: Setup, config: Config, events: seq<Event>, hs: seq<Store>) {
    && s.channels > 0 && |hs| == |events| + 1 && hs[0] == EMPTY
    && forall i: nat :: i < |events| ==> StepsAt(s, config, events, hs, i)
  }

  // ----- the class makes such steps ------------------------------------------------------------

  ghost function StoreOf(n: NetEq): Store
    reads n, n.packets
  {
    Store(n.leftover, n.packets.buffer, n.stretched, n.consecutiveExpands)
  }

  /** Every call of get_audio that does not underflow is a step. */
  method Play(n: NetEq, noise: seq<real>) returns (ok: bool, frame: array<real>, ghost tick: Tick)
    requires n.Valid() && |noise| == n.setup.Frame()
    modifies n, n.packets, n.delay, n.delay.tracker, n.filter, n.accelerate, n.preemptive, n.expander
    ensures fresh(frame) && ok == !Underflows(n.setup, tick.op)
    ensures ok ==> n.Valid() && frame[..] == tick.frame
    ensures ok ==> IsStep(n.setup, n.packets.config, old(StoreOf(n)), Event.GetAudio(tick), StoreOf(n))
  {
    ok, frame, tick := n.GetAudio(noise);
  }

  /** Every insert is a step. */
  method Receive(n: NetEq, p: Packet, now: nat)
    requires n.Valid() && p.sampleRate > 0
    modifies n.packets, n.stats, n.delay, n.delay.tracker, n.delay.histogram, n.delay.histogram.buckets
    ensures n.Valid()
    ensures IsStep(n.setup, n.packets.config, old(StoreOf(n)), Insert(p, n.delay.TargetDelayMs(), now), StoreOf(n))
  {
    ghost var relativeDelay, registered;
    relativeDelay, registered := n.InsertPacket(p, now);
  }

  /** Every flush is a step. */
  method Clear(n: NetEq)
    requires n.Valid()
    modifies n, n.packets, n.delay, n.delay.tracker, n.filter
    ensures n.Valid() && IsStep(n.setup, n.packets.config, old(StoreOf(n)), Event.Flush, StoreOf(n))
  {
    n.Flush();
  }

  // ----- the account of a run ------------------------------------------------------------------

  /**
   Since the last flush: packets offered, packets the ticks took off the front (in that order),
   packets lost to staleness, flushes and duplicates, and samples used.
   */
  datatype Account = Account(offered: seq<Packet>, handedOut: seq<Packet>, lost: seq<Packet>, used: nat)

  const OPENING: Account := Account([], [], [], 0)

  /** The packets taken off the front when `rest` is left. */
  ghost function Taken(ps: seq<Packet>, rest: seq<Packet>): seq<Packet> {
    if |rest| <= |ps| then ps[..|ps| - |rest|] else []
  }

  ghost function NextAccount(a: Account, config: Config, h: Store, e: Event, h': Store): Account {
    match e
    case Insert(p, targetMs, now) =>
      if RatesOk(h.packets) then
        var c := InsertedPacket(h.packets, config, p, targetMs, now);
        a.(offered := a.offered + [p], lost := a.lost + (c.discarded + c.flushed))
      else a
    case GetAudio(t) => a.(handedOut := a.handedOut + Taken(h.packets, h'.packets), used := a.used + t.used)
    case Flush => OPENING
  }

  ghost function AccountOf(config: Config, events: seq<Event>, hs: seq<Store>, n: nat): Account
    requires n <= |events| && |hs| == |events| + 1
  {
    if n == 0 then OPENING
    else NextAccount(AccountOf(config, events, hs, n - 1), config, hs[n - 1], events[n - 1], hs[n])
  }

  lemma TakenGrows(ps: seq<Packet>, rest: seq<Packet>)
    requires ps != [] && |rest| < |ps| && ps[1..] == Taken(ps[1..], rest) + rest
    ensures ps == Taken(ps, rest) + rest
  {
    assert ps == [ps[0]] + ps[1..];
    assert ps[|ps| - |rest|..] == rest by {
      assert ps[1..][|ps| - 1 - |rest|..] == rest;
    }
  }

  lemma {:induction false} SuffixSplit(rest: seq<Packet>, ps: seq<Packet>)
    requires IsSuffix(rest, ps)
    ensures |rest| <= |ps| && ps == Taken(ps, rest) + rest
  {
    if rest == ps {
      assert Taken(ps, rest) == [];
    } else {
      SuffixSplit(rest, ps[1..]);
      TakenGrows(ps, rest);
    }
  }

  // ----- the packets held ------------------------------------------------------------------------

  ghost predicate PacketsOk(ps: seq<Packet>) { Sorted(ps) && RatesOk(ps) }

  lemma SuffixIsOk(taken: seq<Packet>, rest: seq<Packet>)
    requires PacketsOk(taken + rest)
    ensures PacketsOk(rest)
  {
    var ps := taken + rest;
    assert forall i :: 0 <= i < |rest| ==> rest[i] == ps[|taken| + i];
  }

  lemma InsertIsOk(config: Config, b: seq<Packet>, p: Packet, targetMs: nat, now: nat)
    requires PacketsOk(b) && p.sampleRate > 0
    ensures PacketsOk(InsertedPacket(b, config, p, targetMs, now).buffer)
    ensures DecodesAsExpected(b) && |p.pcm| == p.ExpectedSamples() ==>
      DecodesAsExpected(InsertedPacket(b, config, p, targetMs, now).buffer)
  {
    InsertKeepsOrder(b, config, p, targetMs, now);
    var c := InsertedPacket(b, config, p, targetMs, now);
    forall i | 0 <= i < |c.buffer| ensures c.buffer[i] in b || c.buffer[i] == p {
      assert c.buffer[i] in c.buffer;
    }
  }

  /** What one call does to the packets held. */
  ghost predicate PacketsChange(config: Config, b: seq<Packet>, e: Event, b': seq<Packet>) {
    match e
    case Insert(p, targetMs, now) =>
      p.sampleRate > 0 && RatesOk(b) && b' == InsertedPacket(b, config, p, targetMs, now).buffer
    case GetAudio(t) => IsSuffix(b', b)
    case Flush => b' == []
  }

  lemma StepPackets(s: Setup, config: Config, events: seq<Event>, hs: seq<Store>, i: nat)
    requires IsEventRun(s, config, events, hs) && i < |events|
    ensures PacketsChange(config, hs[i].packets, events[i], hs[i + 1].packets)
  {
    assert StepsAt(s, config, events, hs, i);
  }

  // ----- conservation of packets -------------------------------------------------------------------

  /** Every packet offered since the last flush was handed out, lost or is still held. */
  ghost predicate Conserved(a: Account, h: Store) {
    multiset(a.offered) == multiset(a.handedOut) + multiset(h.packets) + multiset(a.lost)
  }

  /** Booking an insert: `held` and the new packet become `held'` and `gone`. */
  lemma BookInsert(offered: seq<Packet>, handed: seq<Packet>, held: seq<Packet>, lost: seq<Packet>, p: Packet,
                   held': seq<Packet>, gone: seq<Packet>)
    requires multiset(offered) == multiset(handed) + multiset(held) + multiset(lost)
    requires multiset(held) + multiset{p} == multiset(held') + multiset(gone)
    ensures multiset(offered + [p]) == multiset(handed) + multiset(held') + multiset(lost + gone)
  {
    assert multiset(offered + [p]) == multiset(offered) + multiset{p};
    assert multiset(lost + gone) == multiset(lost) + multiset(gone);
    assert multiset(offered) + multiset{p} == multiset(handed) + (multiset(held) + multiset{p}) + multiset(lost);
  }

  lemma InsertConserved(a: Account, config: Config, h: Store, e: Event, h': Store)
    requires e.Insert? && PacketsOk(h.packets) && Conserved(a, h)
    requires h'.packets == InsertedPacket(h.packets, config, e.packet, e.targetMs, e.now).buffer
    ensures Conserved(NextAccount(a, config, h, e, h'), h')
  {
    var c := InsertedPacket(h.packets, config, e.packet, e.targetMs, e.now);
    InsertConserves(h.packets, config, e.packet, e.targetMs, e.now);
    assert multiset(c.discarded + c.flushed) == multiset(c.discarded) + multiset(c.flushed);
    BookInsert(a.offered, a.handedOut, h.packets, a.lost, e.packet, c.buffer, c.discarded + c.flushed);
  }

  /** Booking a tick: `taken` moves from the packets held to the packets handed out. */
  lemma BookTaken(offered: multiset<Packet>, handed: seq<Packet>, taken: seq<Packet>, rest: seq<Packet>, lost: multiset<Packet>)
    requires offered == multiset(handed) + multiset(taken + rest) + lost
    ensures offered == multiset(handed + taken) + multiset(rest) + lost
  {
    assert multiset(taken + rest) == multiset(taken) + multiset(rest);
    assert multiset(handed + taken) == multiset(handed) + multiset(taken);
  }

  lemma TickConserved(a: Account, config: Config, h: Store, e: Event, h': Store)
    requires e.GetAudio? && IsSuffix(h'.packets, h.packets) && Conserved(a, h)
    ensures Conserved(NextAccount(a, config, h, e, h'), h')
  {
    SuffixSplit(h'.packets, h.packets);
    BookTaken(multiset(a.offered), a.handedOut, Taken(h.packets, h'.packets), h'.packets, multiset(a.lost));
  }

  lemma TickPacketsOk(h: Store, h': Store)
    requires PacketsOk(h.packets) && IsSuffix(h'.packets, h.packets)
    ensures PacketsOk(h'.packets)
  {
    SuffixSplit(h'.packets, h.packets);
    SuffixIsOk(Taken(h.packets, h'.packets), h'.packets);
  }

  /** Packets sorted with rates, and all accounted for, after `n` events. */
  ghost predicate PacketsAccounted(config: Config, events: seq<Event>, hs: seq<Store>, n: nat) {
    && n <= |events| && |hs| == |events| + 1
    && PacketsOk(hs[n].packets) && Conserved(AccountOf(config, events, hs, n), hs[n])
  }

  lemma ChangeKeepsPackets(config: Config, a: Account, h: Store, e: Event, h': Store)
    requires PacketsOk(h.packets) && Conserved(a, h) && PacketsChange(config, h.packets, e, h'.packets)
    ensures PacketsOk(h'.packets) && Conserved(NextAccount(a, config, h, e, h'), h')
  {
    match e
    case Insert(p, targetMs, now) =>
      InsertIsOk(config, h.packets, p, targetMs, now);
      InsertConserved(a, config, h, e, h');
    case GetAudio(t) =>
      TickPacketsOk(h, h');
      TickConserved(a, config, h, e, h');
    case Flush =>
  }

  lemma NothingOffered(config: Config, events: seq<Event>, hs: seq<Store>)
    requires |hs| == |events| + 1 && hs[0] == EMPTY
    ensures PacketsAccounted(config, events, hs, 0)
  {
  }

  /** Over every run the packets held are sorted and every packet offered since the last flush is accounted for. */
  lemma {:induction false} PacketsAreAccounted(s: Setup, config: Config, events: seq<Event>, hs: seq<Store>, n: nat)
    requires IsEventRun(s, config, events, hs) && n <= |events|
    ensures PacketsAccounted(config, events, hs, n)
  {
    if n == 0 {
      NothingOffered(config, events, hs);
    } else {
      var i := n - 1;
      PacketsAreAccounted(s, config, events, hs, i);
      StepPackets(s, config, events, hs, i);
      ChangeKeepsPackets(config, AccountOf(config, events, hs, i), hs[i], events[i], hs[n]);
    }
  }

  // ----- accounting of samples ----------------------------------------------------------------------

  /** The leftover samples are what the packets handed out decode to, without the samples used. */
  ghost predicate SamplesAccounted(a: Account, h: Store) {
    a.used <= |Decoded(a.handedOut)| && h.leftover == Decoded(a.handedOut)[a.used..]
  }

  /** Cancelling a common suffix. */
  lemma CancelSuffix(left: seq<real>, front: seq<real>, rest: seq<real>, used: nat)
    requires used <= |front + rest| && left + rest == (front + rest)[used..]
    ensures used <= |front| && left == front[used..]
  {
    assert |left| + |rest| == |front| + |rest| - used;
    forall i | 0 <= i < |left| ensures left[i] == front[used + i] {
      assert (left + rest)[i] == (front + rest)[used..][i];
    }
  }

  lemma DropTwice(stream: seq<real>, extra: seq<real>, used: nat, more: nat)
    requires used <= |stream| && more <= |stream[used..] + extra|
    ensures used + more <= |stream + extra| && (stream[used..] + extra)[more..] == (stream + extra)[used + more..]
  {
    assert stream[used..] + extra == (stream + extra)[used..];
  }

  /** The samples alone: `stream` is the audio handed out before, `more` the audio taken now. */
  lemma UseSamples(stream: seq<real>, more: seq<real>, rest: seq<real>, before: nat, used: nat, left: seq<real>)
    requires before <= |stream| && used <= |stream[before..] + (more + rest)|
    requires left + rest == (stream[before..] + (more + rest))[used..]
    ensures before + used <= |stream + more| && left == (stream + more)[before + used..]
  {
    Regroup(stream[before..], more, rest);
    CancelSuffix(left, stream[before..] + more, rest, used);
    DropTwice(stream, more, before, used);
  }

  lemma TickUses(handed: seq<Packet>, taken: seq<Packet>, rest: seq<Packet>, before: nat, left: seq<real>, t: Tick,
                 packets: seq<Packet>, leftover: seq<real>)
    requires before <= |Decoded(handed)| && TookFront(t)
    requires packets == taken + rest && leftover == Decoded(handed)[before..]
    requires t.before.pending == leftover + Decoded(packets)
    requires t.after.pending == left + Decoded(rest)
    ensures before + t.used <= |Decoded(handed + taken)| && left == Decoded(handed + taken)[before + t.used..]
  {
    DecodedConcat(taken, rest);
    DecodedConcat(handed, taken);
    UseSamples(Decoded(handed), Decoded(taken), Decoded(rest), before, t.used, left);
  }

  lemma TickSamples(a: Account, config: Config, h: Store, e: Event, h': Store)
    requires e.GetAudio? && SamplesAccounted(a, h) && IsSuffix(h'.packets, h.packets)
    requires e.tick.before == ViewOf(h) && e.tick.after == ViewOf(h') && TookFront(e.tick)
    ensures SamplesAccounted(NextAccount(a, config, h, e, h'), h')
  {
    var taken := Taken(h.packets, h'.packets);
    SuffixSplit(h'.packets, h.packets);
    TickUses(a.handedOut, taken, h'.packets, a.used, h'.leftover, e.tick, h.packets, h.leftover);
  }

  /** Every tick since the last flush had all the audio it asked for. */
  ghost predicate AlwaysEnough(s: Setup, events: seq<Event>, n: nat)
    requires n <= |events|
  {
    if n == 0 then true
    else match events[n - 1]
      case Insert(_, _, _) => AlwaysEnough(s, events, n - 1)
      case GetAudio(t) => AlwaysEnough(s, events, n - 1) && HadEnough(s, t)
      case Flush => true
  }

  lemma SamplesStep(s: Setup, config: Config, events: seq<Event>, hs: seq<Store>, i: nat)
    requires IsEventRun(s, config, events, hs) && i < |events|
    requires !events[i].Flush? ==> SamplesAccounted(AccountOf(config, events, hs, i), hs[i])
    requires events[i].GetAudio? ==> HadEnough(s, events[i].tick)
    ensures SamplesAccounted(AccountOf(config, events, hs, i + 1), hs[i + 1])
  {
    assert StepsAt(s, config, events, hs, i);
    if events[i].GetAudio? {
      TickTakesFront(s, events[i].tick);
      TickSamples(AccountOf(config, events, hs, i), config, hs[i], events[i], hs[i + 1]);
    }
  }

  /**
   Over every run of inserts, ticks and flushes, whatever is reordered, stale, flushed or repeated: while
   every tick finds the audio it asks for, what is left of the packets handed out is exactly their audio
   without its first used samples - nothing lost, repeated or reordered on the way to the output.
   */
  lemma {:induction false} StreamIsAccounted(s: Setup, config: Config, events: seq<Event>, hs: seq<Store>, n: nat)
    requires IsEventRun(s, config, events, hs) && n <= |events| && AlwaysEnough(s, events, n)
    ensures SamplesAccounted(AccountOf(config, events, hs, n), hs[n])
  {
    if n == 0 {
      assert Decoded([]) == [];
    } else {
      var i := n - 1;
      if !events[i].Flush? {
        StreamIsAccounted(s, config, events, hs, i);
      }
      SamplesStep(s, config, events, hs, i);
    }
  }

  // ----- when the decisions guarantee it --------------------------------------------------------------

  /** Every packet decodes to its expected length. */
  ghost predicate ExpectedLengths(events: seq<Event>) {
    forall i :: 0 <= i < |events| && events[i].Insert? ==> |events[i].packet.pcm| == events[i].packet.ExpectedSamples()
  }

  lemma SuffixDecodes(taken: seq<Packet>, rest: seq<Packet>)
    requires DecodesAsExpected(taken + rest)
    ensures DecodesAsExpected(rest)
  {
    assert forall j :: 0 <= j < |rest| ==> rest[j] == (taken + rest)[|taken| + j];
  }

  lemma ChangeKeepsExpected(config: Config, b: seq<Packet>, e: Event, b': seq<Packet>)
    requires PacketsOk(b) && DecodesAsExpected(b) && PacketsChange(config, b, e, b')
    requires e.Insert? ==> |e.packet.pcm| == e.packet.ExpectedSamples()
    ensures DecodesAsExpected(b')
  {
    match e
    case Insert(p, targetMs, now) => InsertIsOk(config, b, p, targetMs, now);
    case GetAudio(t) =>
      SuffixSplit(b', b);
      SuffixDecodes(Taken(b, b'), b');
    case Flush =>
  }

  lemma {:induction false} RunDecodesAsExpected(s: Setup, config: Config, events: seq<Event>, hs: seq<Store>, n: nat)
    requires IsEventRun(s, config, events, hs) && ExpectedLengths(events) && n <= |events|
    ensures DecodesAsExpected(hs[n].packets)
  {
    if n == 0 {
    } else {
      var i := n - 1;
      RunDecodesAsExpected(s, config, events, hs, i);
      PacketsAreAccounted(s, config, events, hs, i);
      StepPackets(s, config, events, hs, i);
      ChangeKeepsExpected(config, hs[i].packets, events[i], hs[n].packets);
    }
  }

  lemma TickIsMeasured(s: Setup, config: Config, events: seq<Event>, hs: seq<Store>, i: nat)
    requires IsEventRun(s, config, events, hs) && ExpectedLengths(events) && i < |events| && events[i].GetAudio?
    ensures Measured(events[i].tick) && DecisionOk(s, events[i].tick)
  {
    assert StepsAt(s, config, events, hs, i);
    RunDecodesAsExpected(s, config, events, hs, i);
    ExpectedIsActual(hs[i].packets);
  }

  /** No decision since the last flush fell short. */
  ghost predicate NeverShort(s: Setup, events: seq<Event>, n: nat)
    requires n <= |events|
  {
    if n == 0 then true
    else match events[n - 1]
      case Insert(_, _, _) => NeverShort(s, events, n - 1)
      case GetAudio(t) => NeverShort(s, events, n - 1) && !FallsShort(s, t)
      case Flush => true
  }

  /** With packets of their expected length the ticks have their audio exactly when no decision falls short. */
  lemma {:induction false} EnoughIffNeverShort(s: Setup, config: Config, events: seq<Event>, hs: seq<Store>, n: nat)
    requires Guaranteed(s) && IsEventRun(s, config, events, hs) && ExpectedLengths(events) && n <= |events|
    ensures AlwaysEnough(s, events, n) <==> NeverShort(s, events, n)
  {
    if n == 0 {
    } else {
      var i := n - 1;
      EnoughIffNeverShort(s, config, events, hs, i);
      if events[i].GetAudio? {
        TickIsMeasured(s, config, events, hs, i);
        MeasuredTickHasEnoughIff(s, events[i].tick);
      }
    }
  }

  /** End to end, for any number of channels: the stream is accounted for as long as no decision falls short. */
  lemma GuaranteedStreamIsAccounted(s: Setup, config: Config, events: seq<Event>, hs: seq<Store>, n: nat)
    requires Guaranteed(s) && IsEventRun(s, config, events, hs) && ExpectedLengths(events) && n <= |events|
    requires NeverShort(s, events, n)
    ensures SamplesAccounted(AccountOf(config, events, hs, n), hs[n])
  {
    EnoughIffNeverShort(s, config, events, hs, n);
    StreamIsAccounted(s, config, events, hs, n);
  }

  // ----- packets in order -------------------------------------------------------------------------------

  /** The packet is newer than all held, and nothing is stale, flushed or full. */
  ghost predicate ArrivesInOrder(b: seq<Packet>, config: Config, e: Event)
    requires e.Insert?
  {
    RatesOk(b) && Undisturbed(b, config, e.targetMs, e.now) && forall i :: 0 <= i < |b| ==> b[i].timestamp < e.packet.timestamp
  }

  /** What was offered is what was handed out followed by what is held, and nothing was lost. */
  ghost predicate InSequence(a: Account, h: Store) { a.lost == [] && a.offered == a.handedOut + h.packets }

  lemma InsertKeepsSequence(config: Config, a: Account, h: Store, e: Event, h': Store)
    requires e.Insert? && InSequence(a, h) && PacketsChange(config, h.packets, e, h'.packets)
    requires ArrivesInOrder(h.packets, config, e)
    ensures InSequence(NextAccount(a, config, h, e, h'), h')
  {
    NewestIsAppended(h.packets, config, e.packet, e.targetMs, e.now);
    assert (a.handedOut + h.packets) + [e.packet] == a.handedOut + (h.packets + [e.packet]);
  }

  lemma TickKeepsSequence(config: Config, a: Account, h: Store, e: Event, h': Store)
    requires e.GetAudio? && InSequence(a, h) && IsSuffix(h'.packets, h.packets)
    ensures InSequence(NextAccount(a, config, h, e, h'), h')
  {
    var taken, rest := Taken(h.packets, h'.packets), h'.packets;
    SuffixSplit(rest, h.packets);
    assert a.handedOut + (taken + rest) == (a.handedOut + taken) + rest;
  }

  lemma ChangeKeepsSequence(config: Config, a: Account, h: Store, e: Event, h': Store)
    requires InSequence(a, h) && PacketsChange(config, h.packets, e, h'.packets)
    requires e.Insert? ==> ArrivesInOrder(h.packets, config, e)
    ensures InSequence(NextAccount(a, config, h, e, h'), h')
  {
    match e
    case Insert(p, targetMs, now) => InsertKeepsSequence(config, a, h, e, h');
    case GetAudio(t) => TickKeepsSequence(config, a, h, e, h');
    case Flush =>
  }

  /** While all packets arrive in order, the packets handed out and held are the packets offered, in their order. */
  lemma {:induction false} InOrderPacketsStayInSequence(s: Setup, config: Config, events: seq<Event>, hs: seq<Store>, n: nat)
    requires IsEventRun(s, config, events, hs) && n <= |events|
    requires forall i :: 0 <= i < n && events[i].Insert? ==> ArrivesInOrder(hs[i].packets, config, events[i])
    ensures InSequence(AccountOf(config, events, hs, n), hs[n])
  {
    if n == 0 {
    } else {
      var i := n - 1;
      InOrderPacketsStayInSequence(s, config, events, hs, i);
      StepPackets(s, config, events, hs, i);
      ChangeKeepsSequence(config, AccountOf(config, events, hs, i), hs[i], events[i], hs[n]);
    }
  }

  // ----- what is played ---------------------------------------------------------------------------------

  /** Every tick since the last flush was normal and had its frame. */
  ghost predicate AlwaysNormal(s: Setup, events: seq<Event>, n: nat)
    requires n <= |events|
  {
    if n == 0 then true
    else match events[n - 1]
      case Insert(_, _, _) => AlwaysNormal(s, events, n - 1)
      case GetAudio(t) => AlwaysNormal(s, events, n - 1) && t.op.Normal? && HadEnough(s, t)
      case Flush => true
  }

  /** The frames played since the last flush, one after the other. */
  ghost function PlayedSince(events: seq<Event>, n: nat): seq<real>
    requires n <= |events|
  {
    if n == 0 then []
    else match events[n - 1]
      case Insert(_, _, _) => PlayedSince(events, n - 1)
      case GetAudio(t) => PlayedSince(events, n - 1) + t.frame
      case Flush => []
  }

  lemma {:induction false} NormalHasEnough(s: Setup, events: seq<Event>, n: nat)
    requires n <= |events| && AlwaysNormal(s, events, n)
    ensures AlwaysEnough(s, events, n)
  {
    if n == 0 || events[n - 1].Flush? {
    } else {
      NormalHasEnough(s, events, n - 1);
    }
  }

  /** Playing the head of what was left, seen from the whole stream. */
  lemma PlayMore(stream: seq<real>, more: seq<real>, rest: seq<real>, played: seq<real>, frame: seq<real>, left: seq<real>)
    requires |played| <= |stream| && played == stream[..|played|]
    requires stream[|played|..] + (more + rest) == frame + (left + rest)
    ensures |played + frame| <= |stream + more| && played + frame == (stream + more)[..|played + frame|]
  {
    var u := |played|;
    Regroup(stream[u..], more, rest);
    Regroup(frame, left, rest);
    var a, b := stream[u..] + more, frame + left;
    assert |a| == |b|;
    assert a == (a + rest)[..|a|] == (b + rest)[..|a|] == b;
    assert stream + more == played + a;
    assert played + (frame + left) == (played + frame) + left;
  }

  lemma NormalTickPlays(a: Account, config: Config, h: Store, t: Tick, h': Store, s: Setup, played: seq<real>)
    requires TickOk(s, t) && t.op.Normal? && HadEnough(s, t) && SamplesAccounted(a, h)
    requires t.before == ViewOf(h) && t.after == ViewOf(h') && IsSuffix(h'.packets, h.packets)
    requires a.used == |played| && played == Decoded(a.handedOut)[..a.used]
    ensures var a' := NextAccount(a, config, h, Event.GetAudio(t), h');
      a'.used == |played + t.frame| <= |Decoded(a'.handedOut)| && played + t.frame == Decoded(a'.handedOut)[..a'.used]
  {
    NormalPlaysTheQueue(s, t);
    var taken, rest := Taken(h.packets, h'.packets), h'.packets;
    SuffixSplit(rest, h.packets);
    DecodedConcat(taken, rest);
    DecodedConcat(a.handedOut, taken);
    PlayMore(Decoded(a.handedOut), Decoded(taken), Decoded(rest), played, t.frame, h'.leftover);
  }

  /** What normal ticks played is exactly the audio of the packets handed out, in order, up to the samples used. */
  ghost predicate PlayedIsUsed(config: Config, events: seq<Event>, hs: seq<Store>, n: nat) {
    && n <= |events| && |hs| == |events| + 1
    && var a := AccountOf(config, events, hs, n);
      a.used == |PlayedSince(events, n)| <= |Decoded(a.handedOut)| && PlayedSince(events, n) == Decoded(a.handedOut)[..a.used]
  }

  lemma PlayedStep(s: Setup, config: Config, events: seq<Event>, hs: seq<Store>, i: nat)
    requires IsEventRun(s, config, events, hs) && i < |events| && AlwaysNormal(s, events, i + 1)
    requires !events[i].Flush? ==>
      PlayedIsUsed(config, events, hs, i) && SamplesAccounted(AccountOf(config, events, hs, i), hs[i])
    ensures PlayedIsUsed(config, events, hs, i + 1)
  {
    assert StepsAt(s, config, events, hs, i);
    if events[i].GetAudio? {
      NormalTickPlays(AccountOf(config, events, hs, i), config, hs[i], events[i].tick, hs[i + 1], s, PlayedSince(events, i));
    }
  }

  lemma {:induction false} NormalTicksPlayTheStream(s: Setup, config: Config, events: seq<Event>, hs: seq<Store>, n: nat)
    requires IsEventRun(s, config, events, hs) && n <= |events| && AlwaysNormal(s, events, n)
    ensures PlayedIsUsed(config, events, hs, n)
  {
    if n == 0 {
      assert Decoded([]) == [];
    } else {
      var i := n - 1;
      if !events[i].Flush? {
        NormalTicksPlayTheStream(s, config, events, hs, i);
        NormalHasEnough(s, events, i);
        StreamIsAccounted(s, config, events, hs, i);
      }
      PlayedStep(s, config, events, hs, i);
    }
  }
}
