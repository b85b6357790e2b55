/** NetEq (neteq/src/neteq.rs): the class whose ticks refine the transitions of NetEqModel. */
module NetEqs {
  import opened Numbers
  import opened Options
  import opened Signal
  import opened TimeStretch
  import opened PreemptiveStretch
  import opened Expansion
  import opened PacketBuffers
  import opened LevelFilters
  import opened DelayManagement
  import Histograms
  import opened NetEqModel
  import opened NetEqRuns

  /** What the packets decode to, in order. */
  ghost function Decoded(ps: seq<Packet>): seq<real> {
    if ps == [] then [] else ps[0].pcm + Decoded(ps[1..])
  }

  function ExpectedTotal(ps: seq<Packet>): nat {
    if ps == [] then 0 else ps[0].ExpectedSamples() + ExpectedTotal(ps[1..])
  }

  /** `rest` is what is left of the packets after some were taken from the front. */
  ghost predicate IsSuffix(rest: seq<Packet>, ps: seq<Packet>) {
    rest == ps || (ps != [] && IsSuffix(rest, ps[1..]))
  }

  lemma {:induction false} SuffixOfSuffix(rest: seq<Packet>, ps: seq<Packet>)
    requires IsSuffix(rest, ps) && rest != []
    ensures IsSuffix(rest[1..], ps)
  {
    if rest == ps {
      assert IsSuffix(rest[1..], ps[1..]);
    } else {
      SuffixOfSuffix(rest, ps[1..]);
    }
  }

  ghost predicate DecodesAsExpected(ps: seq<Packet>) {
    forall i :: 0 <= i < |ps| ==> |ps[i].pcm| == ps[i].ExpectedSamples()
  }

  lemma {:induction false} ExpectedIsActual(ps: seq<Packet>)
    requires DecodesAsExpected(ps)
    ensures ExpectedTotal(ps) == |Decoded(ps)|
  {
    if ps == [] {
    } else {
      ExpectedIsActual(ps[1..]);
    }
  }

  lemma {:induction false} DecodedConcat(ps: seq<Packet>, qs: seq<Packet>)
    ensures Decoded(ps + qs) == Decoded(ps) + Decoded(qs)
  {
    if ps == [] {
      assert ps + qs == qs;
    } else {
      DecodedConcat(ps[1..], qs);
      assert (ps + qs)[1..] == ps[1..] + qs;
      Regroup(ps[0].pcm, Decoded(ps[1..]), Decoded(qs));
    }
  }

  /** A packet that arrives in order extends the queue by its audio and leaves the rest as it was. */
  lemma InOrderPacketIsFed(leftover: seq<real>, b: seq<Packet>, config: PacketBuffers.Config, p: Packet, targetMs: nat, now: nat)
    requires RatesOk(b) && Undisturbed(b, config, targetMs, now)
    requires forall i :: 0 <= i < |b| ==> b[i].timestamp < p.timestamp
    ensures leftover + Decoded(InsertedPacket(b, config, p, targetMs, now).buffer) == (leftover + Decoded(b)) + p.pcm
  {
    NewestIsAppended(b, config, p, targetMs, now);
    DecodedConcat(b, [p]);
    assert Decoded([p]) == p.pcm + Decoded([]) == p.pcm;
    Regroup(leftover, Decoded(b), p.pcm);
  }

  /** A full frame and the rest of the queue are the head and tail of the padded queue. */
  lemma FullFrame(queue: seq<real>, got: seq<real>, rest: seq<real>)
    requires queue == got + rest
    ensures Padded(queue, |got|)[..|got|] == got && Padded(queue, |got|)[|got|..] == rest
  {
  }

  /** An exhausted queue followed by silence is the padded queue. */
  lemma ShortFrame(queue: seq<real>, n: nat)
    requires |queue| <= n
    ensures Padded(queue, n)[..n] == queue + Zeros(n - |queue|) && Padded(queue, n)[n..] == []
  {
  }

  /** Taking `k` samples of the first packet leaves its rest in front of the other packets. */
  lemma PacketSplit(ps: seq<Packet>, k: nat)
    requires ps != [] && k <= |ps[0].pcm|
    ensures [] + Decoded(ps) == ps[0].pcm[..k] + (ps[0].pcm[k..] + Decoded(ps[1..]))
  {
    var pcm, rest := ps[0].pcm, Decoded(ps[1..]);
    assert pcm == pcm[..k] + pcm[k..];
    Regroup(pcm[..k], pcm[k..], rest);
  }

  /** Base minimum 20 ms; the effective bounds are recomputed only if a limit is given. */
  function InitialLimits(baseMaximumMs: nat, minDelayMs: nat, maxDelayMs: nat): Limits {
    var limits := Limits(20, baseMaximumMs, minDelayMs, maxDelayMs, Bounds(20, baseMaximumMs));
    if minDelayMs > 0 || maxDelayMs > 0 then limits.Recomputed() else limits
  }

  /** Without limits the bounds are the base bounds as they are; with any, they are computed. */
  lemma InitialLimitsAre(baseMaximumMs: nat, minDelayMs: nat, maxDelayMs: nat)
    ensures var l := InitialLimits(baseMaximumMs, minDelayMs, maxDelayMs);
      && l.baseMin == 20 && l.baseMax == baseMaximumMs && l.userMin == minDelayMs && l.userMax == maxDelayMs
      && l.effective == if minDelayMs == 0 && maxDelayMs == 0 then Bounds(20, baseMaximumMs)
                        else EffectiveBounds(20, baseMaximumMs, minDelayMs, maxDelayMs)
  {
  }

  /** The delay manager NetEq starts with: base minimum 20 ms, limits applied if given. */
  method NewDelayManager(quantile: real, forgetFactor: real, startWeight: Option<real>, resampleIntervalMs: Option<nat>,
                         maxHistoryMs: nat, baseMaximumMs: nat, additionalDelayMs: nat, minDelayMs: nat, maxDelayMs: nat)
    returns (d: DelayManager)
    requires 0.0 <= quantile <= 1.0 && 0.0 <= forgetFactor && Histograms.Round(forgetFactor * 32768.0) < 32768
    requires resampleIntervalMs.Some? ==> resampleIntervalMs.value > 0
    ensures fresh(d) && fresh(d.tracker) && fresh(d.histogram) && fresh(d.histogram.buckets) && d.Valid()
    ensures d.GetLimits() == InitialLimits(baseMaximumMs, minDelayMs, maxDelayMs)
    ensures d.Managed() == NewManager(20, baseMaximumMs).(limits := d.GetLimits()) && d.histogram.adds == 0
  {
    d := new DelayManager(quantile, forgetFactor, startWeight, resampleIntervalMs, maxHistoryMs, 20, baseMaximumMs, additionalDelayMs);
    if minDelayMs > 0 {
      var _ := d.SetMinimumDelay(minDelayMs);
    }
    if maxDelayMs > 0 {
      var _ := d.SetMaximumDelay(maxDelayMs);
    }
  }

  /** Accelerates a longer input into the output; the contract keeps what NetEq needs. */
  method RunAccelerate(a: TimeStretch.Accelerate, input: seq<real>, output: array<real>, fast: bool) returns (used: nat)
    requires output.Length <= |input| && AccelerateInRange(|input|, output.Length, a.overlapLength)
    modifies a, output
    ensures output.Length <= used <= |input| && AcceleratedFrom(input, output[..], used, a.overlapLength)
  {
    ghost var p, cut, start, len;
    var r;
    r, p, cut, start, len := a.Process(input, output, fast);
    used := a.usedInputSamples;
    AccelerateOutcome(input, output[..], used, a.overlapLength, fast, r, p, cut);
  }

  /** Stretches an input into an output of the same length; the contract keeps what NetEq needs. */
  method RunPreemptive(e: PreemptiveStretch.PreemptiveExpand, input: seq<real>, output: array<real>) returns (used: nat)
    requires |input| == output.Length && e.overlapLength <= output.Length && ThresholdOk(e.corrThreshold)
    modifies e, output
    ensures ThresholdOk(e.corrThreshold)
    ensures used <= |input| && ExpandedFrom(input, output[..], used, e.overlapLength)
  {
    ghost var lag, pos, corr;
    var r;
    r, lag, pos, corr := e.Process(input, output);
    used := e.usedInputSamples;
    ExpandOutcome(input, output[..], used, e.overlapLength, r, lag, pos);
  }

  /** A frame of `n` samples of silence. */
  method SilentFrame(n: nat) returns (frame: array<real>)
    ensures fresh(frame) && frame.Length == n && frame[..] == Zeros(n)
  {
    frame := new real[n](_ => 0.0);
  }

  class NetEq {
    const setup: Setup
    const packets: PacketBuffer
    const stats: Statistics
    const delay: DelayManager
    const filter: BufferLevelFilter
    const accelerate: TimeStretch.Accelerate
    const preemptive: PreemptiveStretch.PreemptiveExpand
    const expander: Expander
    var leftover: seq<real>
    var stretched: seq<real>
    var consecutiveExpands: nat
    var stretchAdded: int
    var lastOperation: Operation

    ghost predicate ComponentsOk()
      reads this, packets, delay, delay.tracker, delay.histogram, delay.histogram.buckets, filter, preemptive
    {
      && setup.channels > 0
      && packets.Valid() && delay.Valid() && filter.Valid()
      && ThresholdOk(preemptive.corrThreshold)
      && accelerate.overlapLength == setup.Overlap()
      && preemptive.overlapLength == setup.Overlap()
      && expander.overlapLength == setup.Overlap()
    }

    /** The components, and the run invariant of the audio held. */
    ghost predicate Valid()
      reads this, packets, delay, delay.tracker, delay.histogram, delay.histogram.buckets, filter, preemptive
    {
      ComponentsOk() && Inv(setup, Held())
    }

    /** Leftover samples of the last packet, then the packets still to be decoded. */
    ghost function Pending(): seq<real>
      reads this, packets
    {
      leftover + Decoded(packets.buffer)
    }

    ghost function Held(): View
      reads this, packets
    {
      View(Pending(), stretched, consecutiveExpands)
    }

    /** Audio held in samples, packets counted by their nominal length. */
    function CurrentBufferSizeSamples(): nat
      reads this, packets
    {
      ExpectedTotal(packets.buffer) + |leftover| + |stretched|
    }

    constructor (setup: Setup, config: PacketBuffers.Config, quantile: real, forgetFactor: real, startWeight: Option<real>,
                 resampleIntervalMs: Option<nat>, maxHistoryMs: nat, additionalDelayMs: nat, minDelayMs: nat, maxDelayMs: nat)
      requires setup.sampleRate > 0 && setup.channels > 0 && 0.0 <= quantile <= 1.0
      requires 0.0 <= forgetFactor && Histograms.Round(forgetFactor * 32768.0) < 32768
      requires resampleIntervalMs.Some? ==> resampleIntervalMs.value > 0
      ensures Valid() && this.setup == setup && Held() == View([], [], 0)
      ensures packets.config == config && stats.discardedPackets == 0 && stretchAdded == 0
      ensures delay.GetLimits() == InitialLimits(config.maxPackets * 20 * 3 / 4, minDelayMs, maxDelayMs)
      ensures delay.Managed() == NewManager(20, config.maxPackets * 20 * 3 / 4).(limits := delay.GetLimits())
      ensures filter.filteredLevelSamples == 0.0 && filter.levelFactor == 253.0 / 256.0
    {
      this.setup := setup;
      packets := new PacketBuffer(config);
      stats := new Statistics();
      var manager := NewDelayManager(quantile, forgetFactor, startWeight, resampleIntervalMs, maxHistoryMs,
                                     config.maxPackets * 20 * 3 / 4, additionalDelayMs, minDelayMs, maxDelayMs);
      delay := manager;
      filter := new BufferLevelFilter();
      accelerate := new TimeStretch.Accelerate(setup.sampleRate);
      preemptive := new PreemptiveStretch.PreemptiveExpand(setup.sampleRate);
      expander := new Expander(setup.sampleRate);
      leftover, stretched, consecutiveExpands, stretchAdded, lastOperation := [], [], 0, 0, Normal;
      new;
      EmptyIsInv(setup, Held());
    }

    /** A packet joins the buffer; nothing that was decoded or stretched already is touched. */
    method InsertPacket(p: Packet, now: nat) returns (ghost relativeDelay: nat, ghost registered: Option<nat>)
      requires Valid() && p.sampleRate > 0
      modifies packets, stats, delay, delay.tracker, delay.histogram, delay.histogram.buckets
      ensures Valid() && Between(old(Held()), Held())
      ensures IsArrival(old(delay.Managed()), Arrival(p.timestamp, p.sampleRate, false, now), delay.GetSettings(),
                        delay.Managed(), relativeDelay, registered)
      ensures delay.histogram.buckets[..]
           == Registered(old(delay.histogram.buckets[..]), old(delay.histogram.forgetFactor), registered)
      ensures delay.histogram.adds == old(delay.histogram.adds) + (if IsRegistered(registered, DELAY_BUCKETS) then 1 else 0)
      ensures IsTarget(delay.histogram.buckets[..], delay.quantile, delay.effective, delay.targetLevelMs)
      ensures var c := InsertedPacket(old(packets.buffer), packets.config, p, delay.TargetDelayMs(), now);
        packets.buffer == c.buffer && stats.discardedPackets == old(stats.discardedPackets) + |c.discarded|
    {
      relativeDelay, registered := delay.Update(p.timestamp, p.sampleRate, false, now);
      StorePacket(p, now);
    }

    /** The packet buffer takes the packet in, for the target delay of the moment. */
    method StorePacket(p: Packet, now: nat)
      requires packets.Valid() && p.sampleRate > 0 && Inv(setup, Held())
      modifies packets, stats
      ensures packets.Valid() && Inv(setup, Held()) && Between(old(Held()), Held())
      ensures var c := InsertedPacket(old(packets.buffer), packets.config, p, delay.TargetDelayMs(), now);
        packets.buffer == c.buffer && stats.discardedPackets == old(stats.discardedPackets) + |c.discarded|
    {
      packets.InsertPacket(p, stats, delay.TargetDelayMs(), now);
      BetweenKeepsInv(setup, old(Held()), Held());
    }

    /** Drops everything held; the filter restarts from the stretched samples that were still waiting. */
    method Flush()
      requires Valid()
      modifies this, packets, delay, delay.tracker, filter
      ensures Valid() && leftover == [] && packets.buffer == [] && stretched == [] && consecutiveExpands == 0
      ensures stretchAdded == 0 && lastOperation == old(lastOperation)
      ensures Recalibrated(old(delay.Managed()), |old(stretched)|)
    {
      DropAll();
      EmptyIsInv(setup, Held());
    }

    method DropAll()
      requires ComponentsOk()
      modifies this, packets, delay, delay.tracker, filter
      ensures ComponentsOk() && leftover == [] && packets.buffer == [] && stretched == [] && consecutiveExpands == 0
      ensures stretchAdded == 0 && lastOperation == old(lastOperation)
      ensures Recalibrated(old(delay.Managed()), |old(stretched)|)
    {
      ClearQueue();
      Reset();
    }

    method ClearQueue()
      requires packets.Valid()
      modifies this`leftover, packets
      ensures packets.Valid() && leftover == [] && packets.buffer == [] && CurrentBufferSizeSamples() == |stretched|
    {
      packets.Flush();
      leftover := [];
    }

    /** Filter and delay tracking start over from `size` samples held. */
    ghost predicate Recalibrated(before: Manager, size: nat)
      reads this, delay, delay.tracker, filter
    {
      && filter.filteredLevelSamples == size as real && filter.levelFactor == 253.0 / 256.0
      && delay.Managed() == Restarted(before)
      && delay.targetLevelMs == Max(START_DELAY_MS, delay.baseMinimumMs)
    }

    /** Recalibrates after a long expansion; the packets and the leftover samples are kept. */
    method Reset()
      requires ComponentsOk()
      modifies this`consecutiveExpands, this`stretched, this`stretchAdded, delay, delay.tracker, filter
      ensures ComponentsOk()
      ensures stretched == [] && consecutiveExpands == 0 && stretchAdded == 0
      ensures Recalibrated(old(delay.Managed()), old(CurrentBufferSizeSamples()))
    {
      delay.Reset();
      filter.Reset();
      filter.SetFilteredBufferLevel(CurrentBufferSizeSamples());
      consecutiveExpands := 0;
      stretched := [];
      stretchAdded := 0;
    }

    /** The level the filter holds after this tick's update. */
    ghost function NewLevel(): real
      reads this, packets, delay, filter
    {
      UpdatedLevel(filter.filteredLevelSamples, FactorFor(delay.TargetDelayMs()), CurrentBufferSizeSamples(), -stretchAdded)
    }

    /** Updates the level filter and derives the thresholds of the decision. */
    method MeasureLevel() returns (low: nat, high: nat, level: nat)
      requires ComponentsOk()
      modifies this`stretchAdded, filter
      ensures ComponentsOk() && stretchAdded == 0
      ensures low == LowLimit(setup.sampleRate, delay.TargetDelayMs())
      ensures high == HighLimit(setup.sampleRate, delay.TargetDelayMs())
      ensures filter.filteredLevelSamples == old(NewLevel()) && filter.levelFactor == FactorFor(delay.TargetDelayMs())
      ensures level == old(NewLevel()).Floor
    {
      var targetDelayMs := delay.TargetDelayMs();
      filter.SetTargetBufferLevel(targetDelayMs);
      filter.Update(CurrentBufferSizeSamples(), -stretchAdded);
      stretchAdded := 0;
      low := LowLimit(setup.sampleRate, targetDelayMs);
      high := HighLimit(setup.sampleRate, targetDelayMs);
      level := filter.FilteredCurrentLevel();
    }

    /** Chooses the operation for this tick; the filter is updated first. */
    method GetDecision() returns (op: Operation, ghost low: nat, ghost high: nat, ghost level: nat)
      requires ComponentsOk()
      modifies this`consecutiveExpands, this`stretched, this`stretchAdded, delay, delay.tracker, filter
      ensures ComponentsOk()
      ensures low == LowLimit(setup.sampleRate, old(delay.TargetDelayMs()))
      ensures high == HighLimit(setup.sampleRate, old(delay.TargetDelayMs()))
      ensures level == old(NewLevel()).Floor
      ensures var d := Decide(setup.Frame(), old(CurrentBufferSizeSamples()), old(stretched) != [], old(consecutiveExpands), low, high, level);
        && op == d.op && consecutiveExpands == d.expands
        && if d.reset then Recalibrated(old(delay.Managed()), old(CurrentBufferSizeSamples()))
           else
             && filter.filteredLevelSamples == old(NewLevel()) && filter.levelFactor == FactorFor(old(delay.TargetDelayMs()))
             && delay.Managed() == old(delay.Managed()) && delay.targetLevelMs == old(delay.targetLevelMs)
      ensures stretched == old(stretched) && stretchAdded == 0
    {
      var currentBufferSamples := CurrentBufferSizeSamples();
      var lowLimit, highLimit, levelSamples := MeasureLevel();
      low, high, level := lowLimit, highLimit, levelSamples;
      var frame := setup.Frame();
      if stretched != [] {
        return TimeStretchBuffer, low, high, level;
      }
      if consecutiveExpands > 0 && currentBufferSamples < lowLimit {
        consecutiveExpands := Saturated(consecutiveExpands + 1);
        return Operation.Expand, low, high, level;
      }
      if currentBufferSamples < frame * 3 / 2 && currentBufferSamples >= frame / 2 && consecutiveExpands == 0 {
        consecutiveExpands := Saturated(consecutiveExpands + 1);
        return Operation.ExpandStart, low, high, level;
      }
      if currentBufferSamples < frame {
        consecutiveExpands := Saturated(consecutiveExpands + 1);
        return Operation.Expand, low, high, level;
      }
      if consecutiveExpands > 0 {
        if consecutiveExpands > 600 {
          Reset();
        }
        consecutiveExpands := 0;
        return Operation.ExpandEnd, low, high, level;
      }
      if levelSamples >= highLimit * 4 {
        return FastAccelerate, low, high, level;
      }
      if levelSamples >= highLimit {
        return Operation.Accelerate, low, high, level;
      }
      if levelSamples < lowLimit && currentBufferSamples >= frame * 3 {
        return Operation.PreemptiveExpand, low, high, level;
      }
      op := Normal;
    }

    /** Decodes one packet into the frame from `filled` on; what does not fit becomes leftover. */
    method TakePacket(frame: array<real>, filled: nat) returns (filled': nat, ghost part: seq<real>)
      requires packets.Valid() && packets.buffer != [] && leftover == [] && filled < frame.Length
      modifies this`leftover, packets, frame
      ensures packets.Valid() && packets.buffer == old(packets.buffer)[1..]
      ensures filled + |part| == filled' <= frame.Length
      ensures frame[..filled'] == old(frame[..filled]) + part
      ensures old(Pending()) == part + Pending()
      ensures filled' < frame.Length ==> leftover == []
    {
      var found, packet := packets.GetNextPacket();
      var toCopy := Min(frame.Length - filled, |packet.pcm|);
      part := packet.pcm[..toCopy];
      CopyInto(packet.pcm[..toCopy], frame, filled);
      filled' := filled + toCopy;
      leftover := packet.pcm[toCopy..];
      PacketSplit(old(packets.buffer), toCopy);
      assert frame[..filled'] == frame[..filled] + frame[filled..filled'];
    }

    /** Starts the frame with the leftover samples. */
    method TakeLeftover(frame: array<real>) returns (filled: nat)
      modifies this`leftover, frame
      ensures filled <= frame.Length && (filled < frame.Length ==> leftover == [])
      ensures old(Pending()) == frame[..filled] + Pending()
    {
      filled := Min(frame.Length, |leftover|);
      ghost var was, rest := leftover, Decoded(packets.buffer);
      CopyInto(leftover[..filled], frame, 0);
      leftover := leftover[filled..];
      assert was == was[..filled] + leftover;
      assert frame[..filled] == was[..filled];
      assert was + rest == was[..filled] + (leftover + rest);
    }

    /** Fills the frame from the queue, with silence if the queue runs out. */
    method DecodeNormal(frame: array<real>)
      requires packets.Valid()
      modifies this`leftover, packets, frame
      ensures IsSuffix(packets.buffer, old(packets.buffer))
      ensures packets.Valid()
      ensures frame[..] == Padded(old(Pending()), frame.Length)[..frame.Length]
      ensures Pending() == Padded(old(Pending()), frame.Length)[frame.Length..]
    {
      ghost var queue := Pending();
      var filled := TakeLeftover(frame);
      ghost var got := frame[..filled];
      while filled < frame.Length && packets.buffer != []
        invariant 0 <= filled <= frame.Length && packets.Valid()
        invariant IsSuffix(packets.buffer, old(packets.buffer))
        invariant filled < frame.Length ==> leftover == []
        invariant got == frame[..filled] && queue == got + Pending()
        decreases |packets.buffer|
      {
        ghost var part;
        SuffixOfSuffix(packets.buffer, old(packets.buffer));
        filled, part := TakePacket(frame, filled);
        Regroup(got, part, Pending());
        got := got + part;
      }
      if filled < frame.Length {
        assert Pending() == [] && queue == got;
        ShortFrame(queue, frame.Length);
        CopyInto(Zeros(frame.Length - filled), frame, filled);
      } else {
        FullFrame(queue, got, Pending());
        assert frame[..filled] == frame[..];
      }
    }

    /** Returns the unused tail of the input to the front of the queue. */
    method PutBack(input: seq<real>, used: nat)
      requires used <= |input|
      modifies this`leftover
      ensures Pending() == input[used..] + old(Pending())
    {
      Regroup(input[used..], leftover, Decoded(packets.buffer));
      if |input| > used {
        leftover := input[used..] + leftover;
      } else {
        assert input[used..] + leftover == leftover;
      }
    }

    /** Reads `n` samples off the queue into a new buffer. */
    method ReadInput(n: nat) returns (input: array<real>)
      requires packets.Valid()
      modifies this`leftover, packets
      ensures IsSuffix(packets.buffer, old(packets.buffer))
      ensures packets.Valid() && fresh(input) && input.Length == n
      ensures input[..] == Padded(old(Pending()), n)[..n] && Pending() == Padded(old(Pending()), n)[n..]
    {
      input := SilentFrame(n);
      DecodeNormal(input);
    }

    /** Plays the first frame of a stretcher's output and keeps the rest. */
    method PlayFirst(output: array<real>, frame: array<real>)
      requires frame.Length <= output.Length && output != frame && stretched == []
      modifies this`stretched, frame
      ensures frame[..] + stretched == output[..]
    {
      CopyInto(output[..frame.Length], frame, 0);
      stretched := stretched + output[frame.Length..];
    }

    /** Reads `n` samples, accelerates them to `m`, puts the unused ones back, plays the first frame. */
    method AccelerateQueue(n: nat, m: nat, frame: array<real>, fast: bool) returns (used: nat)
      requires packets.Valid() && accelerate.overlapLength == setup.Overlap() && stretched == []
      requires frame.Length <= m <= n && AccelerateInRange(n, m, setup.Overlap())
      modifies this`leftover, this`stretched, packets, accelerate, frame
      ensures IsSuffix(packets.buffer, old(packets.buffer))
      ensures packets.Valid()
      ensures m <= used <= n && Pending() == Padded(old(Pending()), n)[used..]
      ensures |frame[..] + stretched| == m
      ensures AcceleratedFrom(Padded(old(Pending()), n)[..n], frame[..] + stretched, used, setup.Overlap())
    {
      ghost var queue := Padded(Pending(), n);
      var extended := ReadInput(n);
      var input := extended[..];
      var output := SilentFrame(m);
      used := RunAccelerate(accelerate, input, output, fast);
      PutBack(input, used);
      TailOfQueue(queue, n, used);
      PlayFirst(output, frame);
    }

    method DecodeAccelerate(frame: array<real>, fast: bool) returns (ghost used: nat)
      requires ComponentsOk() && setup.stretching && frame.Length == setup.Frame() && stretched == []
      modifies this`leftover, this`stretched, this`stretchAdded, packets, accelerate, frame
      ensures IsSuffix(packets.buffer, old(packets.buffer))
      ensures ComponentsOk()
      ensures var n := AccelerateRequest(setup, old(CurrentBufferSizeSamples()), fast);
        && used <= n && Pending() == Padded(old(Pending()), n)[used..]
        && AcceleratedFrom(Padded(old(Pending()), n)[..n], frame[..] + stretched, used, setup.Overlap())
      ensures stretchAdded == old(stretchAdded) - SaturatingSub(used, |frame[..] + stretched|) / setup.channels
      ensures |frame[..] + stretched| == AccelerateOutput(setup, old(CurrentBufferSizeSamples()), fast)
    {
      var available := CurrentBufferSizeSamples();
      var required, outputLen := AccelerateRequest(setup, available, fast), AccelerateOutput(setup, available, fast);
      AccelerateSizes(setup, available, fast);
      var usedInput := AccelerateQueue(required, outputLen, frame, fast);
      used := usedInput;
      var samplesRemoved := usedInput - outputLen;
      stretchAdded := stretchAdded - samplesRemoved / setup.channels;
    }

    /** Reads `n` samples, stretches them to `n`, puts the unused ones back, plays the first frame. */
    method ExpandQueue(n: nat, frame: array<real>) returns (used: nat)
      requires packets.Valid() && preemptive.overlapLength == setup.Overlap() && stretched == []
      requires ThresholdOk(preemptive.corrThreshold) && frame.Length <= n && setup.Overlap() <= n
      modifies this`leftover, this`stretched, packets, preemptive, frame
      ensures IsSuffix(packets.buffer, old(packets.buffer))
      ensures packets.Valid() && ThresholdOk(preemptive.corrThreshold)
      ensures used <= n && Pending() == Padded(old(Pending()), n)[used..]
      ensures |frame[..] + stretched| == n
      ensures ExpandedFrom(Padded(old(Pending()), n)[..n], frame[..] + stretched, used, setup.Overlap())
    {
      ghost var queue := Padded(Pending(), n);
      var extended := ReadInput(n);
      var input := extended[..];
      var output := SilentFrame(n);
      used := RunPreemptive(preemptive, input, output);
      PutBack(input, used);
      TailOfQueue(queue, n, used);
      PlayFirst(output, frame);
    }

    method DecodePreemptiveExpand(frame: array<real>) returns (ghost used: nat)
      requires setup.CanExpand() && ComponentsOk() && setup.stretching && frame.Length == setup.Frame() && stretched == []
      modifies this`leftover, this`stretched, this`stretchAdded, packets, preemptive, frame
      ensures IsSuffix(packets.buffer, old(packets.buffer))
      ensures ComponentsOk()
      ensures var n := 3 * setup.Frame();
        && used <= n && Pending() == Padded(old(Pending()), n)[used..]
        && |frame[..] + stretched| == n
        && ExpandedFrom(Padded(old(Pending()), n)[..n], frame[..] + stretched, used, setup.Overlap())
      ensures stretchAdded == old(stretchAdded) + SaturatingSub(|frame[..] + stretched|, used) / setup.channels
    {
      var n := 3 * setup.Frame();
      var usedInput := ExpandQueue(n, frame);
      used := usedInput;
      var samplesAdded := n - usedInput;
      stretchAdded := stretchAdded + samplesAdded / setup.channels;
    }

    method ReturnTimeStretchBuffer(frame: array<real>)
      requires frame.Length <= |stretched|
      modifies this`stretched, frame
      ensures old(stretched) == frame[..] + stretched
    {
      CopyInto(stretched[..frame.Length], frame, 0);
      ghost var was := stretched;
      stretched := stretched[frame.Length..];
      assert was == was[..frame.Length] + stretched;
    }

    /** Reads `n` samples as the audio to fade with, conceals the frame, puts the unused samples back. */
    method ConcealQueue(n: nat, frame: array<real>, phase: ExpandPhase, noise: seq<real>) returns (ghost used: nat)
      requires packets.Valid() && expander.overlapLength == setup.Overlap() && frame[..] == Zeros(|noise|)
      modifies this`leftover, packets, expander, frame
      ensures IsSuffix(packets.buffer, old(packets.buffer))
      ensures packets.Valid()
      ensures used <= n && Pending() == Padded(old(Pending()), n)[used..]
      ensures ConcealedFrom(Padded(old(Pending()), n)[..n], frame[..], used, noise, phase, setup.Overlap())
    {
      ghost var queue := Padded(Pending(), n);
      var buffer := ReadInput(n);
      var input := buffer[..];
      var r := expander.Process(input, frame, phase, noise);
      var usedInput := expander.usedInputSamples;
      used := usedInput;
      PutBack(input, usedInput);
      TailOfQueue(queue, n, usedInput);
    }

    method DecodeExpand(frame: array<real>, phase: ExpandPhase, noise: seq<real>) returns (ghost used: nat)
      requires ComponentsOk() && |noise| == setup.Frame() && frame[..] == Zeros(|noise|)
      modifies this`leftover, packets, expander, frame
      ensures IsSuffix(packets.buffer, old(packets.buffer))
      ensures ComponentsOk()
      ensures var n := SamplesRequired(phase, setup.Overlap()) * setup.channels;
        && used <= n && Pending() == Padded(old(Pending()), n)[used..]
        && ConcealedFrom(Padded(old(Pending()), n)[..n], frame[..], used, noise, phase, setup.Overlap())
    {
      used := ConcealQueue(SamplesRequired(phase, setup.Overlap()) * setup.channels, frame, phase, noise);
    }

    /** An accelerate, fast or not, with stretching enabled. */
    method PerformAccelerate(op: Operation, frame: array<real>, noise: seq<real>) returns (ghost used: nat)
      requires ComponentsOk() && frame.Length == setup.Frame() && stretched == []
      requires IsStretching(setup, op) && !op.PreemptiveExpand?
      modifies this`leftover, this`stretched, this`stretchAdded, packets, accelerate, frame
      ensures IsSuffix(packets.buffer, old(packets.buffer))
      ensures ComponentsOk()
      ensures Performed(setup, op, old(CurrentBufferSizeSamples()), old(Pending()), [], Pending(), stretched,
                        frame[..], used, noise)
      ensures stretchAdded == old(stretchAdded) + StretchDelta(setup, op, |frame[..] + stretched|, used)
    {
      used := DecodeAccelerate(frame, op.FastAccelerate?);
    }

    /** A preemptive expand, with stretching enabled. */
    method PerformPreemptive(op: Operation, frame: array<real>, noise: seq<real>) returns (ghost used: nat)
      requires ComponentsOk() && frame.Length == setup.Frame() && stretched == []
      requires IsStretching(setup, op) && op.PreemptiveExpand? && !Underflows(setup, op)
      modifies this`leftover, this`stretched, this`stretchAdded, packets, preemptive, frame
      ensures IsSuffix(packets.buffer, old(packets.buffer))
      ensures ComponentsOk()
      ensures Performed(setup, op, old(CurrentBufferSizeSamples()), old(Pending()), [], Pending(), stretched,
                        frame[..], used, noise)
      ensures stretchAdded == old(stretchAdded) + StretchDelta(setup, op, |frame[..] + stretched|, used)
    {
      used := DecodePreemptiveExpand(frame);
    }

    /** Every other operation, and the stretching ones when stretching is disabled. */
    method PerformPlain(op: Operation, frame: array<real>, noise: seq<real>) returns (ghost used: nat)
      requires ComponentsOk() && |noise| == setup.Frame() && frame[..] == Zeros(|noise|) && !IsStretching(setup, op)
      requires op.TimeStretchBuffer? ==> setup.Frame() <= |stretched|
      requires !op.TimeStretchBuffer? ==> stretched == []
      modifies this`leftover, this`stretched, packets, expander, frame
      ensures IsSuffix(packets.buffer, old(packets.buffer))
      ensures ComponentsOk()
      ensures Performed(setup, op, old(CurrentBufferSizeSamples()), old(Pending()), old(stretched), Pending(), stretched,
                        frame[..], used, noise)
    {
      if op.TimeStretchBuffer? {
        ReturnTimeStretchBuffer(frame);
        used := 0;
        PlayedPerforms(setup, old(CurrentBufferSizeSamples()), old(Pending()), old(stretched), stretched, frame[..], noise);
      } else if IsExpanding(op) {
        used := DecodeExpand(frame, PhaseOf(op), noise);
        ConcealedPerforms(setup, op, old(CurrentBufferSizeSamples()), old(Pending()), Pending(), frame[..], used, noise);
      } else {
        DecodeNormal(frame);
        used := frame.Length;
        DecodedPerforms(setup, op, old(CurrentBufferSizeSamples()), old(Pending()), Pending(), frame[..], noise);
      }
    }

    /** Carries out a decided operation on the queue and fills the frame. */
    method Perform(op: Operation, frame: array<real>, noise: seq<real>) returns (ghost used: nat)
      requires !Underflows(setup, op) && ComponentsOk() && |noise| == setup.Frame() && frame[..] == Zeros(|noise|)
      requires op.TimeStretchBuffer? ==> setup.Frame() <= |stretched|
      requires !op.TimeStretchBuffer? ==> stretched == []
      modifies this`leftover, this`stretched, this`stretchAdded, packets, accelerate, preemptive, expander, frame
      ensures IsSuffix(packets.buffer, old(packets.buffer))
      ensures ComponentsOk()
      ensures Performed(setup, op, old(CurrentBufferSizeSamples()), old(Pending()), old(stretched), Pending(), stretched,
                        frame[..], used, noise)
      ensures stretchAdded == old(stretchAdded) + StretchDelta(setup, op, |frame[..] + stretched|, used)
    {
      if IsStretching(setup, op) && op.PreemptiveExpand? {
        used := PerformPreemptive(op, frame, noise);
      } else if IsStretching(setup, op) {
        used := PerformAccelerate(op, frame, noise);
      } else {
        used := PerformPlain(op, frame, noise);
      }
    }

    /** The decision alone: what it does to the filter and the delay manager does not matter to the tick. */
    method ChooseOperation() returns (op: Operation, ghost low: nat, ghost high: nat, ghost level: nat)
      requires ComponentsOk()
      modifies this`consecutiveExpands, this`stretched, this`stretchAdded, delay, delay.tracker, filter
      ensures ComponentsOk() && stretched == old(stretched) && stretchAdded == 0
      ensures low == LowLimit(setup.sampleRate, old(delay.TargetDelayMs()))
      ensures high == HighLimit(setup.sampleRate, old(delay.TargetDelayMs()))
      ensures level == old(NewLevel()).Floor
      ensures var d := Decide(setup.Frame(), old(CurrentBufferSizeSamples()), old(stretched) != [], old(consecutiveExpands), low, high, level);
        op == d.op && consecutiveExpands == d.expands
    {
      op, low, high, level := GetDecision();
    }

    /** Decides and performs; the tick records both. Not `ok` means that the operation underflows. */
    method RunTick(frame: array<real>, noise: seq<real>) returns (ok: bool, ghost tick: Tick)
      requires ComponentsOk() && |noise| == setup.Frame() && frame[..] == Zeros(|noise|)
      requires stretched != [] ==> setup.Frame() <= |stretched|
      modifies this, packets, delay, delay.tracker, filter, accelerate, preemptive, expander, frame
      ensures DecisionOk(setup, tick) && tick.before == old(Held()) && tick.available == old(CurrentBufferSizeSamples())
      ensures LevelsOk(setup, tick, old(delay.TargetDelayMs()), old(filter.filteredLevelSamples), old(stretchAdded))
      ensures ok == !Underflows(setup, tick.op)
      ensures ok ==> ComponentsOk() && IsSuffix(packets.buffer, old(packets.buffer)) && PerformedTick(setup, tick)
      ensures ok ==> tick.after == Held() && tick.frame == frame[..] && tick.op == lastOperation
      ensures ok ==> stretchAdded == StretchDelta(setup, tick.op, |tick.frame + tick.after.stretched|, tick.used)
    {
      ghost var before, available := Held(), CurrentBufferSizeSamples();
      var op;
      ghost var low, high, level, used;
      op, low, high, level := ChooseOperation();
      lastOperation := op;
      ok, used := !Underflows(setup, op), 0;
      if ok {
        used := Perform(op, frame, noise);
      }
      tick := Tick(before, Held(), op, frame[..], available, low, high, level, used, noise);
    }

    /** One 10 ms tick: a new frame of audio, unless the decided operation underflows. */
    method GetAudio(noise: seq<real>) returns (ok: bool, frame: array<real>, ghost tick: Tick)
      requires Valid() && |noise| == setup.Frame()
      modifies this, packets, delay, delay.tracker, filter, accelerate, preemptive, expander
      ensures fresh(frame)
      ensures DecisionOk(setup, tick) && tick.before == old(Held()) && tick.available == old(CurrentBufferSizeSamples())
      ensures LevelsOk(setup, tick, old(delay.TargetDelayMs()), old(filter.filteredLevelSamples), old(stretchAdded))
      ensures old(DecodesAsExpected(packets.buffer)) ==> Measured(tick)
      ensures ok == !Underflows(setup, tick.op)
      ensures ok ==> Valid() && IsSuffix(packets.buffer, old(packets.buffer)) && TickOk(setup, tick)
      ensures ok ==> tick.after == Held() && tick.frame == frame[..] && tick.op == lastOperation
      ensures ok ==> stretchAdded == StretchDelta(setup, tick.op, |tick.frame + tick.after.stretched|, tick.used)
    {
      if stretched != [] {
        WholeFrameLeft(setup, Held());
      }
      if DecodesAsExpected(packets.buffer) {
        ExpectedIsActual(packets.buffer);
      }
      frame := SilentFrame(setup.Frame());
      ok, tick := RunTick(frame, noise);
      if ok {
        PerformedIsTick(setup, tick);
      }
    }
  }

  lemma BetweenKeepsInv(s: Setup, v: View, w: View)
    requires Inv(s, v) && Between(v, w)
    ensures Inv(s, w)
  {
  }

  lemma EmptyIsInv(s: Setup, v: View)
    requires v.stretched == []
    ensures Inv(s, v)
  {
    assert |v.stretched| == 0 * s.Frame();
  }

  /** A nonempty stretch buffer holds at least one frame. */
  lemma WholeFrameLeft(s: Setup, v: View)
    requires Inv(s, v) && v.stretched != []
    ensures s.Frame() <= |v.stretched|
  {
    var c: nat :| |v.stretched| == c * s.Frame();
    assert c != 0;
    MulLessEq(s.Frame(), 1, c);
  }

  /** Samples per channel that an operation added to the audio (negative: removed). */
  function StretchDelta(s: Setup, op: Operation, produced: nat, used: nat): int
    requires s.channels > 0
  {
    if !IsStretching(s, op) then 0
    else if op.PreemptiveExpand? then SaturatingSub(produced, used) / s.channels
    else 0 - SaturatingSub(used, produced) / s.channels
  }

  /** Operations that do not stretch book nothing. */
  lemma OthersBookNothing(s: Setup, op: Operation, produced: nat, used: nat)
    requires s.channels > 0 && (!s.stretching || !(op.Accelerate? || op.FastAccelerate? || op.PreemptiveExpand?))
    ensures StretchDelta(s, op, produced, used) == 0
  {
  }

  /** `delta` is `added` per channel, rounded toward zero. */
  ghost predicate IsPerChannel(delta: int, added: int, channels: nat) {
    && (channels == 1 ==> delta == added)
    && (added >= 0 ==> 0 <= delta && delta * channels <= added < (delta + 1) * channels)
    && (added <= 0 ==> delta <= 0 && (delta - 1) * channels < added <= delta * channels)
  }

  /** Over plain numbers: `x` is `q` whole parts of `d` and `r` more. */
  lemma WholeParts(x: nat, q: nat, r: nat, d: nat, qd: nat)
    requires d > 0 && qd == q * d && x == qd + r && r < d
    ensures (q + 1) * d == qd + d && (0 - q) * d == 0 - qd && (0 - q - 1) * d == 0 - qd - d
    ensures (q - 1) * d == qd - d && (1 - q) * d == d - qd && (d == 1 ==> q == x)
  {
  }

  lemma QuotientIsPerChannel(x: nat, q: nat, d: nat)
    requires d > 0 && q * d <= x < q * d + d
    ensures IsPerChannel(q, x, d) && IsPerChannel(0 - q, 0 - x, d)
  {
    WholeParts(x, q, x - q * d, d, q * d);
  }

  lemma QuotientBounds(x: nat, q: nat, d: nat)
    requires d > 0 && q == x / d
    ensures q * d <= x < q * d + d
  {
    assert x == x / d * d + x % d;
  }

  /** Division rounded toward zero. */
  lemma TruncationIsPerChannel(added: int, q: nat, delta: int, d: nat)
    requires d > 0 && q == AbsInt(added) / d
    requires (added > 0 && delta == q) || (added < 0 && delta == 0 - q) || (added == 0 && (delta == q || delta == 0 - q))
    ensures IsPerChannel(delta, added, d)
  {
    QuotientBounds(AbsInt(added), q, d);
    QuotientIsPerChannel(AbsInt(added), q, d);
  }

  function AbsInt(x: int): nat { if x >= 0 then x else 0 - x }

  /** What is booked is the samples added per channel, as `TruncationIsPerChannel` describes; removed ones count negative. */
  lemma DeltaIsSamplesAdded(s: Setup, op: Operation, produced: nat, used: nat, q: nat)
    requires s.channels > 0 && IsStretching(s, op) && (if op.PreemptiveExpand? then used <= produced else produced <= used)
    requires q == AbsInt(produced - used) / s.channels
    ensures StretchDelta(s, op, produced, used) == if op.PreemptiveExpand? then q else 0 - q
  {
  }

  /** Thresholds and level of a tick: the target delay, and the filter's level updated with the audio held. */
  ghost predicate LevelsOk(s: Setup, t: Tick, targetMs: nat, filtered: real, added: int) {
    && t.low == LowLimit(s.sampleRate, targetMs) && t.high == HighLimit(s.sampleRate, targetMs)
    && t.level == UpdatedLevel(filtered, FactorFor(targetMs), t.available, -added).Floor
  }

  /** What performing an operation does to the queue, the stretched samples and the frame. */
  ghost predicate Performed(s: Setup, op: Operation, available: nat, pending: seq<real>, stretched: seq<real>,
                            pending': seq<real>, stretched': seq<real>, frame: seq<real>, used: nat, noise: seq<real>)
  {
    var v, w := View(pending, stretched, 0), View(pending', stretched', 0);
    var t := Tick(v, w, op, frame, available, 0, 0, 0, used, noise);
    QueueOk(s, t) && OutputOk(s, t)
  }

  lemma PlayedPerforms(s: Setup, available: nat, pending: seq<real>, stretched: seq<real>, stretched': seq<real>,
                       frame: seq<real>, noise: seq<real>)
    requires |frame| == s.Frame() && stretched == frame + stretched'
    ensures Performed(s, TimeStretchBuffer, available, pending, stretched, pending, stretched', frame, 0, noise)
  {
  }

  lemma ConcealedPerforms(s: Setup, op: Operation, available: nat, pending: seq<real>, pending': seq<real>,
                          frame: seq<real>, used: nat, noise: seq<real>)
    requires IsExpanding(op) && |frame| == |noise| == s.Frame()
    requires var n := SamplesRequired(PhaseOf(op), s.Overlap()) * s.channels;
      && used <= n && pending' == Padded(pending, n)[used..]
      && ConcealedFrom(Padded(pending, n)[..n], frame, used, noise, PhaseOf(op), s.Overlap())
    ensures Performed(s, op, available, pending, [], pending', [], frame, used, noise)
  {
    assert Requested(s, op, available) == SamplesRequired(PhaseOf(op), s.Overlap()) * s.channels;
  }

  lemma DecodedPerforms(s: Setup, op: Operation, available: nat, pending: seq<real>, pending': seq<real>,
                        frame: seq<real>, noise: seq<real>)
    requires !op.TimeStretchBuffer? && !IsExpanding(op) && !IsStretching(s, op) && |frame| == s.Frame()
    requires frame == Padded(pending, s.Frame())[..s.Frame()] && pending' == Padded(pending, s.Frame())[s.Frame()..]
    ensures Performed(s, op, available, pending, [], pending', [], frame, s.Frame(), noise)
  {
  }

  ghost predicate PerformedTick(s: Setup, t: Tick) {
    Performed(s, t.op, t.available, t.before.pending, t.before.stretched, t.after.pending, t.after.stretched,
              t.frame, t.used, t.noise)
  }

  lemma PerformedIsTick(s: Setup, t: Tick)
    requires s.channels > 0 && DecisionOk(s, t) && PerformedTick(s, t) && Inv(s, t.before)
    ensures TickOk(s, t) && Inv(s, t.after)
  {
    var v, w := View(t.before.pending, t.before.stretched, 0), View(t.after.pending, t.after.stretched, 0);
    var u := Tick(v, w, t.op, t.frame, t.available, 0, 0, 0, t.used, t.noise);
    assert InputOf(s, u) == InputOf(s, t);
    TickKeepsInv(s, t);
  }

  /** Putting the unused input back in front of the rest leaves the queue minus what was used. */
  lemma TailOfQueue(queue: seq<real>, n: nat, used: nat)
    requires used <= n <= |queue|
    ensures queue[..n][used..] + queue[n..] == queue[used..]
  {
  }

  lemma ScaledSizes(frame: nat, outLen: nat, need: nat, channels: nat)
    requires 1 <= channels && frame <= outLen <= need && 3 * outLen <= 2 * need
    ensures frame <= outLen * channels <= need * channels && 3 * (outLen * channels) <= 2 * (need * channels)
  {
    MulLessEq(channels, outLen, need);
    MulLessEq(channels, 3 * outLen, 2 * need);
    MulLessEq(outLen, 1, channels);
  }

  lemma AccelerateSizes(s: Setup, available: nat, fast: bool)
    requires s.channels > 0 && s.stretching
    ensures var m, n := AccelerateOutput(s, available, fast), AccelerateRequest(s, available, fast);
      s.Frame() <= m <= n && AccelerateInRange(n, m, s.Overlap())
  {
    var frames := AccelerateFrames(s.Frame(), available, fast);
    var outLen := frames * s.Frame();
    MulLessEq(s.Frame(), 1, frames);
    ScaledSizes(s.Frame(), outLen, AccelerateNeed(outLen, fast), s.channels);
    HalfMoreInputIsInRange(AccelerateNeed(outLen, fast) * s.channels, outLen * s.channels, s.Overlap());
  }

  lemma ExpandOutcome(input: seq<real>, out: seq<real>, used: nat, ov: nat, r: TimeStretchResult, lag: nat, pos: nat)
    requires |out| == |input| && 32 <= ov <= |out|
    requires r.NoStretch? ==> out == input[..|out|] && used == |out|
    requires !r.NoStretch? ==> ov <= MaxAdd(|out|, ov) && exists th: real, th': real, corr: real ::
      Expanded(input, |out|, ov, th, r, out, used, th', lag, pos, corr)
    ensures used <= |input| && ExpandedFrom(input, out, used, ov)
  {
    if !r.NoStretch? {
      assert IsRepeat(input, out, used, ov, lag, pos);
    }
  }

  lemma AccelerateOutcome(input: seq<real>, out: seq<real>, used: nat, ov: nat, fast: bool,
                          r: TimeStretchResult, p: nat, cut: nat)
    requires |out| <= |input| && 2 <= ov
    requires |out| == |input| || |out| < 2 * ov ==> out == input[..|out|] && used == |out|
    requires |out| < |input| && 2 * ov <= |out| ==> ov <= |input| - |out|
    requires |out| < |input| && 2 * ov <= |out| ==>
      exists start: nat, len: nat, th: real, th': real ::
        Accelerated(input, |out|, ov, fast, th, r, out, used, th', p, cut, start, len)
    ensures used <= |input| && |out| <= used && AcceleratedFrom(input, out, used, ov)
  {
    if |out| < |input| && 2 * ov <= |out| && !r.NoStretch? {
      assert IsCut(input, out, used, ov, p, cut);
    }
  }

  datatype NetEqError = InvalidSampleRate(rate: nat) | InvalidChannelCount(channels: nat)

  /** Creation fails exactly for a zero rate or, with a rate, for zero channels. */
  method NewNetEq(setup: Setup, config: PacketBuffers.Config, quantile: real, forgetFactor: real, startWeight: Option<real>,
                  resampleIntervalMs: Option<nat>, maxHistoryMs: nat, additionalDelayMs: nat, minDelayMs: nat, maxDelayMs: nat)
    returns (r: Result<NetEq, NetEqError>)
    requires 0.0 <= quantile <= 1.0 && 0.0 <= forgetFactor && Histograms.Round(forgetFactor * 32768.0) < 32768
    requires resampleIntervalMs.Some? ==> resampleIntervalMs.value > 0
    ensures r == Failure(InvalidSampleRate(0)) <==> setup.sampleRate == 0
    ensures r == Failure(InvalidChannelCount(0)) <==> setup.sampleRate > 0 && setup.channels == 0
    ensures r.Success? <==> setup.sampleRate > 0 && setup.channels > 0
    ensures r.Success? ==> fresh(r.value) && r.value.Valid() && r.value.setup == setup && r.value.Held() == View([], [], 0)
  {
    if setup.sampleRate == 0 {
      return Failure(InvalidSampleRate(setup.sampleRate));
    }
    if setup.channels == 0 {
      return Failure(InvalidChannelCount(setup.channels));
    }
    var neteq := new NetEq(setup, config, quantile, forgetFactor, startWeight, resampleIntervalMs, maxHistoryMs,
                           additionalDelayMs, minDelayMs, maxDelayMs);
    r := Result.Success(neteq);
  }
}
