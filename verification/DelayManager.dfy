/** Adaptive target delay (neteq/src/delay_manager.rs). Times are in nanoseconds. */
module DelayManagement {
  import opened Numbers
  import opened Options
  import opened Histograms

  // ===== relative arrival delay =======================================================

  datatype PacketDelay = PacketDelay(iatDelayMs: int, arrival: nat)

  datatype Tracker = Tracker(history: seq<PacketDelay>, lastTimestamp: Option<nat>, lastPacketTime: Option<nat>)

  const NEW_TRACKER: Tracker := Tracker([], None, None)

  /** Milliseconds between two timestamps. */
  function ExpectedMs(last: nat, timestamp: nat, sampleRate: nat): nat
    requires sampleRate > 0
  {
    SaturatingSub(timestamp, last) * 1000 / sampleRate
  }

  /** Milliseconds between two instants. */
  function PassedMs(last: nat, now: nat): nat { SaturatingSub(now, last) / 1_000_000 }

  /** How much later than its timestamp promises the packet arrived, in milliseconds. */
  function InterArrivalDelay(t: Tracker, timestamp: nat, sampleRate: nat, now: nat): int
    requires sampleRate > 0
  {
    var expected := if t.lastTimestamp.Some? then ExpectedMs(t.lastTimestamp.value, timestamp, sampleRate) else 0;
    var actual := if t.lastPacketTime.Some? then PassedMs(t.lastPacketTime.value, now) else 0;
    actual - expected
  }

  predicate IsRecent(d: PacketDelay, now: nat, maxHistoryMs: nat) {
    now - d.arrival <= maxHistoryMs * 1_000_000
  }

  /** Exactly the entries not older than the history length, in order. */
  function Recent(history: seq<PacketDelay>, now: nat, maxHistoryMs: nat): (r: seq<PacketDelay>)
    ensures forall d :: d in r <==> d in history && IsRecent(d, now, maxHistoryMs)
  {
    if history == [] then []
    else
      var d := history[|history| - 1];
      var front := Recent(history[..|history| - 1], now, maxHistoryMs);
      if IsRecent(d, now, maxHistoryMs) then front + [d] else front
  }

  /** No recent entry is lost or repeated. */
  lemma {:induction false} RecentCounts(history: seq<PacketDelay>, now: nat, maxHistoryMs: nat, d: PacketDelay)
    ensures multiset(Recent(history, now, maxHistoryMs))[d]
         == if IsRecent(d, now, maxHistoryMs) then multiset(history)[d] else 0
  {
    if history == [] {
    } else {
      var front, last := history[..|history| - 1], history[|history| - 1];
      RecentCounts(front, now, maxHistoryMs, d);
      assert history == front + [last];
    }
  }

  function Tracked(t: Tracker, timestamp: nat, sampleRate: nat, now: nat, maxHistoryMs: nat): Tracker
    requires sampleRate > 0
  {
    var delay := PacketDelay(InterArrivalDelay(t, timestamp, sampleRate, now), now);
    Tracker(Recent(t.history + [delay], now, maxHistoryMs), Some(timestamp), Some(now))
  }

  function InsertSorted(x: nat, s: seq<nat>): (r: seq<nat>)
    ensures |r| == |s| + 1
  {
    if s == [] || x <= s[0] then [x] + s else [s[0]] + InsertSorted(x, s[1..])
  }

  function Sort(s: seq<nat>): (r: seq<nat>)
    ensures |r| == |s|
  {
    if s == [] then [] else InsertSorted(s[0], Sort(s[1..]))
  }

  ghost predicate Ascending(s: seq<nat>) {
    forall i, j :: 0 <= i < j < |s| ==> s[i] <= s[j]
  }

  lemma {:induction false} InsertSortedBound(x: nat, s: seq<nat>, low: nat)
    requires low <= x && forall i :: 0 <= i < |s| ==> low <= s[i]
    ensures forall i :: 0 <= i < |InsertSorted(x, s)| ==> low <= InsertSorted(x, s)[i]
  {
    if s == [] || x <= s[0] {
    } else {
      InsertSortedBound(x, s[1..], low);
    }
  }

  lemma {:induction false} InsertSortedMultiset(x: nat, s: seq<nat>)
    ensures multiset(InsertSorted(x, s)) == multiset(s) + multiset{x}
  {
    if s == [] || x <= s[0] {
    } else {
      InsertSortedMultiset(x, s[1..]);
      assert s == [s[0]] + s[1..];
    }
  }

  lemma PrependAscending(x: nat, s: seq<nat>)
    requires Ascending(s) && forall i :: 0 <= i < |s| ==> x <= s[i]
    ensures Ascending([x] + s)
  {
  }

  lemma {:induction false} InsertSortedAscending(x: nat, s: seq<nat>)
    requires Ascending(s)
    ensures Ascending(InsertSorted(x, s))
  {
    if s == [] || x <= s[0] {
      PrependAscending(x, s);
    } else {
      InsertSortedAscending(x, s[1..]);
      InsertSortedBound(x, s[1..], s[0]);
      PrependAscending(s[0], InsertSorted(x, s[1..]));
    }
  }

  lemma {:induction false} SortFacts(s: seq<nat>)
    ensures Ascending(Sort(s)) && multiset(Sort(s)) == multiset(s)
  {
    if s == [] {
    } else {
      SortFacts(s[1..]);
      InsertSortedAscending(s[0], Sort(s[1..]));
      InsertSortedMultiset(s[0], Sort(s[1..]));
      assert s == [s[0]] + s[1..];
    }
  }

  function PositiveDelays(history: seq<PacketDelay>): seq<nat> {
    seq(|history|, i requires 0 <= i < |history| => if history[i].iatDelayMs > 0 then history[i].iatDelayMs else 0)
  }

  lemma ScaledWithin(m: real, q: real)
    requires 0.0 <= m && 0.0 <= q <= 1.0
    ensures 0.0 <= m * q <= m
  {
    ProductNonNegative(m, q);
    ProductNonNegative(m, 1.0 - q);
    assert m * (1.0 - q) == m - m * q;
  }

  lemma FloorWithin(x: real, m: nat)
    requires 0.0 <= x <= m as real
    ensures 0 <= x.Floor <= m
  {
  }

  function PercentileIndex(n: nat, quantile: real): (i: nat)
    requires n > 0 && 0.0 <= quantile <= 1.0
    ensures i < n && i as real <= (n - 1) as real * quantile < i as real + 1.0
  {
    ScaledWithin((n - 1) as real, quantile);
    FloorWithin((n - 1) as real * quantile, n - 1);
    ((n - 1) as real * quantile).Floor
  }

  /** How many entries are at most `v`. */
  function CountUpTo(s: seq<nat>, v: int): nat {
    if s == [] then 0 else CountUpTo(s[1..], v) + (if s[0] <= v then 1 else 0)
  }

  lemma {:induction false} InsertSortedCounts(x: nat, s: seq<nat>, v: int)
    ensures CountUpTo(InsertSorted(x, s), v) == CountUpTo(s, v) + (if x <= v then 1 else 0)
  {
    if s == [] || x <= s[0] {
      assert ([x] + s)[1..] == s;
    } else {
      InsertSortedCounts(x, s[1..], v);
      assert InsertSorted(x, s)[1..] == InsertSorted(x, s[1..]);
    }
  }

  lemma {:induction false} SortCounts(s: seq<nat>, v: int)
    ensures CountUpTo(Sort(s), v) == CountUpTo(s, v)
  {
    if s == [] {
    } else {
      SortCounts(s[1..], v);
      InsertSortedCounts(s[0], Sort(s[1..]), v);
    }
  }

  /** In ascending order at most `i` entries are below `s[i]` and more than `i` are at most `s[i]`. */
  lemma {:induction false} AscendingRank(s: seq<nat>, i: nat, v: int)
    requires Ascending(s) && i < |s|
    ensures s[i] > v ==> CountUpTo(s, v) <= i
    ensures s[i] <= v ==> i < CountUpTo(s, v)
  {
    if |s| == 1 {
      assert s[1..] == [];
    } else if i == 0 {
      AscendingRank(s[1..], 0, v);
    } else {
      AscendingRank(s[1..], i - 1, v);
    }
  }

  /** `v` has rank `quantile` among the entries: at most that many are smaller, more are not greater. */
  ghost predicate IsPercentile(s: seq<nat>, quantile: real, v: nat)
    requires 0.0 <= quantile <= 1.0
  {
    if s == [] then v == 0
    else v in s && CountUpTo(s, v - 1) as real <= (|s| - 1) as real * quantile < CountUpTo(s, v) as real
  }

  lemma SortedRankIsPercentile(s: seq<nat>, quantile: real)
    requires 0.0 <= quantile <= 1.0 && s != []
    ensures IsPercentile(s, quantile, Sort(s)[PercentileIndex(|s|, quantile)])
  {
    var i := PercentileIndex(|s|, quantile);
    var v: int := Sort(s)[i];
    SortFacts(s);
    assert v in multiset(Sort(s));
    AscendingRank(Sort(s), i, v);
    AscendingRank(Sort(s), i, v - 1);
    SortCounts(s, v);
    SortCounts(s, v - 1);
  }

  lemma {:induction false} CountMonotone(s: seq<nat>, v: int, w: int)
    requires v <= w
    ensures CountUpTo(s, v) <= CountUpTo(s, w)
  {
    if s == [] {
    } else {
      CountMonotone(s[1..], v, w);
    }
  }

  /** The rank determines the value, so the percentile does not depend on how the entries are sorted. */
  lemma PercentileIsUnique(s: seq<nat>, quantile: real, v: nat, w: nat)
    requires 0.0 <= quantile <= 1.0 && IsPercentile(s, quantile, v) && IsPercentile(s, quantile, w)
    ensures v == w
  {
    if v < w {
      CountMonotone(s, v, w - 1);
    } else if w < v {
      CountMonotone(s, w, v - 1);
    }
  }

  // ----- lateness ---------------------------------------------------------------------------

  /** A packet `lateMs` behind its timestamp is recorded as exactly that, early ones as negative. */
  lemma LatenessIsRecorded(t: Tracker, timestamp: nat, sampleRate: nat, spacingMs: nat, lateMs: int, now: nat, maxHistoryMs: nat)
    requires sampleRate > 0 && t.lastTimestamp.Some? && t.lastPacketTime.Some?
    requires timestamp >= t.lastTimestamp.value && (timestamp - t.lastTimestamp.value) * 1000 == spacingMs * sampleRate
    requires 0 <= spacingMs + lateMs && now == t.lastPacketTime.value + (spacingMs + lateMs) * 1_000_000
    ensures var t' := Tracked(t, timestamp, sampleRate, now, maxHistoryMs);
      t'.history != [] && t'.history[|t'.history| - 1] == PacketDelay(lateMs, now)
  {
    ExactQuotient((timestamp - t.lastTimestamp.value) * 1000, spacingMs, sampleRate);
    var delay := PacketDelay(InterArrivalDelay(t, timestamp, sampleRate, now), now);
    assert delay.iatDelayMs == lateMs;
    assert (t.history + [delay])[..|t.history|] == t.history;
  }

  lemma ExactQuotient(x: nat, q: nat, d: nat)
    requires d > 0 && x == q * d
    ensures x / d == q
  {
    QuotientIs(x, q, d);
  }

  /** The first packet counts as on time. */
  lemma FirstPacketIsOnTime(timestamp: nat, sampleRate: nat, now: nat, maxHistoryMs: nat)
    requires sampleRate > 0
    ensures Tracked(NEW_TRACKER, timestamp, sampleRate, now, maxHistoryMs).history == [PacketDelay(0, now)]
  {
    var delay := PacketDelay(InterArrivalDelay(NEW_TRACKER, timestamp, sampleRate, now), now);
    assert Recent([], now, maxHistoryMs) == [];
    assert ([] + [delay])[..0] == [];
  }

  /** An entry of `ageMs` milliseconds is kept exactly while that is within the history length. */
  lemma RecentInMilliseconds(iatDelayMs: int, arrival: nat, ageMs: nat, maxHistoryMs: nat)
    ensures IsRecent(PacketDelay(iatDelayMs, arrival), arrival + ageMs * 1_000_000, maxHistoryMs) <==> ageMs <= maxHistoryMs
  {
  }

  /** If no recent packet is more than `most` late the percentile is at most that, and if all are at least `least` late, at least that. */
  lemma LatenessBoundsTheDelay(history: seq<PacketDelay>, quantile: real, delay: nat, least: nat, most: nat)
    requires 0.0 <= quantile <= 1.0 && IsPercentile(PositiveDelays(history), quantile, delay)
    ensures (forall d :: d in history ==> d.iatDelayMs <= most) ==> delay <= most
    ensures history != [] && (forall d :: d in history ==> d.iatDelayMs >= least) ==> delay >= least
  {
    if history != [] {
      var s := PositiveDelays(history);
      var i :| 0 <= i < |s| && s[i] == delay;
      assert history[i] in history;
    }
  }

  /** One packet for the tracker. */
  datatype Received = Received(timestamp: nat, sampleRate: nat, now: nat)

  /** The tracker before each packet and after the last, and the delay each update returned. */
  ghost predicate IsTrackerRun(quantile: real, maxHistoryMs: nat, ps: seq<Received>, ts: seq<Tracker>, delays: seq<nat>) {
    && 0.0 <= quantile <= 1.0 && |ts| == |ps| + 1 && |delays| == |ps| && ts[0] == NEW_TRACKER
    && forall i: nat :: i < |ps| ==> TrackedAt(quantile, maxHistoryMs, ps, ts, delays, i)
  }

  ghost predicate TrackedAt(quantile: real, maxHistoryMs: nat, ps: seq<Received>, ts: seq<Tracker>, delays: seq<nat>, i: nat)
    requires 0.0 <= quantile <= 1.0
  {
    && i < |ps| && i + 1 < |ts| && i < |delays| && ps[i].sampleRate > 0
    && ts[i + 1] == Tracked(ts[i], ps[i].timestamp, ps[i].sampleRate, ps[i].now, maxHistoryMs)
    && IsPercentile(PositiveDelays(ts[i + 1].history), quantile, delays[i])
  }

  /** Packet `i` came at most `mostMs` later after its predecessor than the timestamps say. */
  ghost predicate IsAtMostLate(ps: seq<Received>, i: nat, mostMs: nat)
    requires 0 < i < |ps|
  {
    ps[i - 1].timestamp <= ps[i].timestamp && ps[i - 1].now <= ps[i].now && ps[i].sampleRate > 0 &&
    (ps[i].now - ps[i - 1].now) / 1_000_000 <= (ps[i].timestamp - ps[i - 1].timestamp) * 1000 / ps[i].sampleRate + mostMs
  }

  ghost predicate HistoryWithin(t: Tracker, mostMs: nat) {
    forall d :: d in t.history ==> d.iatDelayMs <= mostMs
  }

  lemma TrackedWithin(t: Tracker, p: Received, maxHistoryMs: nat, mostMs: nat)
    requires p.sampleRate > 0 && HistoryWithin(t, mostMs) && InterArrivalDelay(t, p.timestamp, p.sampleRate, p.now) <= mostMs
    ensures HistoryWithin(Tracked(t, p.timestamp, p.sampleRate, p.now, maxHistoryMs), mostMs)
  {
  }

  /** While no packet is more than `mostMs` late, no update ever returns more. */
  lemma {:induction false} DelayFollowsLateness(quantile: real, maxHistoryMs: nat, ps: seq<Received>, ts: seq<Tracker>, delays: seq<nat>,
                                                mostMs: nat, n: nat)
    requires IsTrackerRun(quantile, maxHistoryMs, ps, ts, delays) && n <= |ps|
    requires forall i :: 0 < i < n ==> IsAtMostLate(ps, i, mostMs)
    ensures HistoryWithin(ts[n], mostMs) && (n > 0 ==> delays[n - 1] <= mostMs)
    ensures n > 0 ==> ts[n].lastTimestamp == Some(ps[n - 1].timestamp) && ts[n].lastPacketTime == Some(ps[n - 1].now)
  {
    if n == 0 {
    } else {
      var i := n - 1;
      DelayFollowsLateness(quantile, maxHistoryMs, ps, ts, delays, mostMs, i);
      assert TrackedAt(quantile, maxHistoryMs, ps, ts, delays, i);
      assert InterArrivalDelay(ts[i], ps[i].timestamp, ps[i].sampleRate, ps[i].now) <= mostMs by {
        assert i > 0 ==> IsAtMostLate(ps, i, mostMs);
      }
      TrackedWithin(ts[i], ps[i], maxHistoryMs, mostMs);
      LatenessBoundsTheDelay(ts[n].history, quantile, delays[i], 0, mostMs);
    }
  }

  // ===== resampling ===================================================================

  datatype Resampler = Resampler(maxDelay: nat, last: Option<nat>)

  /** Milliseconds since the last resample instant, as a u32. */
  function ElapsedMs(last: nat, now: nat): nat {
    PassedMs(last, now) % 4294967296
  }

  /** The whole intervals within the elapsed time. */
  function ElapsedMultiples(elapsed: nat, interval: nat): nat
    requires interval > 0
  {
    elapsed / interval * interval
  }

  /** One delay observed at `now`: the new state and the value registered, if any. */
  function Observed(r: Resampler, interval: nat, now: nat, delay: nat): (Resampler, Option<nat>)
    requires interval > 0
  {
    match r.last
    case None => (Resampler(Max(r.maxDelay, delay), Some(now)), None)
    case Some(last) =>
      var elapsed := ElapsedMs(last, now);
      if elapsed >= interval then
        (Resampler(delay, Some(last + ElapsedMultiples(elapsed, interval) * 1_000_000)), Some(r.maxDelay))
      else (Resampler(Max(r.maxDelay, delay), r.last), None)
  }

  // ----- runs of observations -----------------------------------------------------------

  datatype Observation = Observation(now: nat, delay: nat)

  /** A registration made by observation number `at`, covering the observations from number `from`. */
  datatype Registration = Registration(from: nat, at: nat, value: nat)

  datatype Log = Log(state: Resampler, from: nat, registrations: seq<Registration>)

  /** Times do not go backwards. */
  ghost predicate WellTimed(os: seq<Observation>) {
    forall i :: 0 < i < |os| ==> os[i - 1].now <= os[i].now
  }

  ghost predicate LogOk(l: Log, os: seq<Observation>, interval: nat)
    requires interval > 0
  {
    if os == [] then l == Log(Resampler(0, None), 0, [])
    else
      && l.from < |os|
      && l.state.maxDelay == MaxDelay(os, l.from, |os|)
      && OnGrid(l.state, os, interval)
      && Tiled(l.registrations, os, l.from)
  }

  /** The resample instant is the first arrival plus whole intervals; modulo 2^32 ms less than one interval ago. */
  ghost predicate OnGrid(r: Resampler, os: seq<Observation>, interval: nat)
    requires os != []
  {
    && r.last.Some?
    && (exists k: nat :: r.last.value == GridPoint(os[0].now, k, interval))
    && r.last.value <= os[|os| - 1].now
    && ElapsedMs(r.last.value, os[|os| - 1].now) < interval
  }

  function GridPoint(first: nat, k: nat, interval: nat): nat { first + k * interval * 1_000_000 }

  ghost function MaxDelay(os: seq<Observation>, lo: nat, hi: nat): nat
    requires lo <= hi <= |os|
  {
    if lo == hi then 0 else Max(MaxDelay(os, lo, hi - 1), os[hi - 1].delay)
  }

  /** Registrations cover the observations without gap or overlap, each with the maximum of its stretch. */
  ghost predicate Tiled(rs: seq<Registration>, os: seq<Observation>, upTo: nat) {
    && (if rs == [] then upTo == 0 else rs[0].from == 0 && rs[|rs| - 1].at == upTo)
    && (forall i :: 0 < i < |rs| ==> rs[i].from == rs[i - 1].at)
    && (forall i :: 0 <= i < |rs| ==> rs[i].from < rs[i].at <= |os| && rs[i].value == MaxDelay(os, rs[i].from, rs[i].at))
  }

  ghost function NextLog(l: Log, index: nat, o: Observation, interval: nat): Log
    requires interval > 0
  {
    var (state, registered) := Observed(l.state, interval, o.now, o.delay);
    match registered
    case Some(v) => Log(state, index, l.registrations + [Registration(l.from, index, v)])
    case None => l.(state := state)
  }

  lemma {:induction false} MaxDelayPrefix(os: seq<Observation>, o: Observation, lo: nat, hi: nat)
    requires lo <= hi <= |os|
    ensures MaxDelay(os + [o], lo, hi) == MaxDelay(os, lo, hi)
    decreases hi
  {
    if lo == hi {
    } else {
      MaxDelayPrefix(os, o, lo, hi - 1);
    }
  }

  lemma NextGridPoint(first: nat, k: nat, interval: nat, steps: nat)
    ensures GridPoint(first, k, interval) + steps * interval * 1_000_000 == GridPoint(first, k + steps, interval)
  {
    assert (k + steps) * interval == k * interval + steps * interval;
  }

  lemma WholeIntervals(elapsed: nat, interval: nat)
    requires interval > 0
    ensures elapsed / interval * interval <= elapsed < elapsed / interval * interval + interval
  {
  }

  /** Advancing by the whole intervals elapsed leaves less than one, modulo 2^32 ms. */
  lemma AdvanceLeaves(last: nat, now: nat, interval: nat)
    requires 0 < interval <= ElapsedMs(last, now) && last <= now
    ensures var next := last + ElapsedMs(last, now) / interval * interval * 1_000_000;
      next <= now && ElapsedMs(next, now) < interval
  {
    var total, elapsed := (now - last) / 1_000_000, ElapsedMs(last, now);
    WholeIntervals(elapsed, interval);
    var step := elapsed / interval * interval;
    assert (now - last - step * 1_000_000) / 1_000_000 == total - step;
    assert total % 4294967296 == elapsed;
    assert (total - step) % 4294967296 == elapsed - step;
  }

  lemma AdvanceStaysOnGrid(first: nat, last: nat, interval: nat, steps: nat)
    requires exists k: nat :: last == GridPoint(first, k, interval)
    ensures exists k: nat :: last + steps * interval * 1_000_000 == GridPoint(first, k, interval)
  {
    var k: nat :| last == GridPoint(first, k, interval);
    NextGridPoint(first, k, interval, steps);
  }

  /** After any observation the resample instant is on the grid, less than one interval old modulo 2^32 ms. */
  lemma GridKept(r: Resampler, os: seq<Observation>, interval: nat, o: Observation)
    requires interval > 0 && os != [] && OnGrid(r, os, interval) && WellTimed(os + [o])
    ensures OnGrid(Observed(r, interval, o.now, o.delay).0, os + [o], interval)
  {
    var os' := os + [o];
    assert os'[|os'| - 1] == o && os'[|os|] == o && os'[|os| - 1] == os[|os| - 1] && os'[0] == os[0];
    var last := r.last.value;
    var elapsed := ElapsedMs(last, o.now);
    if elapsed >= interval {
      AdvanceLeaves(last, o.now, interval);
      AdvanceStaysOnGrid(os[0].now, last, interval, elapsed / interval);
    }
  }

  lemma TilesKept(rs: seq<Registration>, os: seq<Observation>, o: Observation, upTo: nat)
    requires Tiled(rs, os, upTo)
    ensures Tiled(rs, os + [o], upTo)
  {
    forall i | 0 <= i < |rs| ensures rs[i].value == MaxDelay(os + [o], rs[i].from, rs[i].at) {
      MaxDelayPrefix(os, o, rs[i].from, rs[i].at);
    }
  }

  lemma FirstLog(l: Log, interval: nat, o: Observation)
    requires interval > 0 && LogOk(l, [], interval)
    ensures LogOk(NextLog(l, 0, o, interval), [o], interval)
  {
    assert GridPoint(o.now, 0, interval) == o.now;
    assert MaxDelay([o], 0, 1) == Max(MaxDelay([o], 0, 0), o.delay);
  }

  /** An observation before the interval is over only raises the maximum. */
  lemma QuietLog(l: Log, os: seq<Observation>, interval: nat, o: Observation)
    requires interval > 0 && os != [] && LogOk(l, os, interval) && WellTimed(os + [o])
    requires ElapsedMs(l.state.last.value, o.now) < interval
    ensures LogOk(NextLog(l, |os|, o, interval), os + [o], interval)
  {
    GridKept(l.state, os, interval, o);
    TilesKept(l.registrations, os, o, l.from);
    MaxDelayPrefix(os, o, l.from, |os|);
  }

  lemma TilesGrow(rs: seq<Registration>, os: seq<Observation>, from: nat, r: Registration)
    requires Tiled(rs, os, from) && r.from == from < r.at <= |os| && r.value == MaxDelay(os, r.from, r.at)
    ensures Tiled(rs + [r], os, r.at)
  {
  }

  /** The first observation after it registers the maximum and starts a new stretch. */
  lemma ResampledLog(l: Log, os: seq<Observation>, interval: nat, o: Observation)
    requires interval > 0 && os != [] && LogOk(l, os, interval) && WellTimed(os + [o])
    requires ElapsedMs(l.state.last.value, o.now) >= interval
    ensures LogOk(NextLog(l, |os|, o, interval), os + [o], interval)
  {
    GridKept(l.state, os, interval, o);
    TilesKept(l.registrations, os, o, l.from);
    MaxDelayPrefix(os, o, l.from, |os|);
    TilesGrow(l.registrations, os + [o], l.from, Registration(l.from, |os|, l.state.maxDelay));
    assert MaxDelay(os + [o], |os|, |os|) == 0;
  }

  /** Every observation keeps the log right: grid, maxima and tiling. */
  lemma LogKept(l: Log, os: seq<Observation>, interval: nat, o: Observation)
    requires interval > 0 && LogOk(l, os, interval) && WellTimed(os + [o])
    ensures LogOk(NextLog(l, |os|, o, interval), os + [o], interval)
  {
    if os == [] {
      FirstLog(l, interval, o);
      assert os + [o] == [o];
    } else if ElapsedMs(l.state.last.value, o.now) < interval {
      QuietLog(l, os, interval, o);
    } else {
      ResampledLog(l, os, interval, o);
    }
  }

  ghost function LogAfter(os: seq<Observation>, interval: nat): (l: Log)
    requires interval > 0 && WellTimed(os)
    ensures LogOk(l, os, interval)
  {
    if os == [] then Log(Resampler(0, None), 0, [])
    else
      var n := |os| - 1;
      assert os == os[..n] + [os[n]];
      var l := LogAfter(os[..n], interval);
      LogKept(l, os[..n], interval, os[n]);
      NextLog(l, n, os[n], interval)
  }

  // ----- when the resample instant is really less than one interval old -------------------

  ghost predicate IsClose(last: Option<nat>, now: nat, interval: nat) {
    last.Some? && now < last.value + interval * 1_000_000
  }

  /** After a call the instant is less than one interval old exactly when it was less than 2^32 ms old before. */
  lemma CloseAfterIff(last: nat, interval: nat, o: Observation)
    requires 0 < interval <= 4294967296 && last <= o.now
    ensures IsClose(Observed(Resampler(0, Some(last)), interval, o.now, o.delay).0.last, o.now, interval)
       <==> o.now < last + 4294967296 * 1_000_000
  {
    var elapsed := ElapsedMs(last, o.now);
    WholeIntervals(elapsed, interval);
    assert PassedMs(last, o.now) < 4294967296 <==> PassedMs(last, o.now) == elapsed;
    assert PassedMs(last, o.now) < 4294967296 <==> o.now < last + 4294967296 * 1_000_000;
    assert elapsed <= PassedMs(last, o.now) - 4294967296 || elapsed == PassedMs(last, o.now);
  }

  /** The resampler alone after the observations `os`. */
  ghost function ResamplerAfter(os: seq<Observation>, interval: nat): Resampler
    requires interval > 0
  {
    if os == [] then Resampler(0, None)
    else
      var o := os[|os| - 1];
      Observed(ResamplerAfter(os[..|os| - 1], interval), interval, o.now, o.delay).0
  }

  lemma {:induction false} ResamplerIsLogged(os: seq<Observation>, interval: nat)
    requires interval > 0 && WellTimed(os)
    ensures ResamplerAfter(os, interval) == LogAfter(os, interval).state
  {
    if os == [] {
    } else {
      ResamplerIsLogged(os[..|os| - 1], interval);
    }
  }

  /** The resample instant after the observations `os`. */
  ghost function Instant(os: seq<Observation>, interval: nat): Option<nat>
    requires interval > 0
  {
    ResamplerAfter(os, interval).last
  }

  lemma FirstInstant(os: seq<Observation>, interval: nat)
    requires interval > 0 && |os| == 1
    ensures Instant(os, interval) == Some(os[0].now)
  {
    assert ResamplerAfter(os[..0], interval) == Resampler(0, None);
  }

  lemma InstantIsPast(os: seq<Observation>, interval: nat)
    requires interval > 0 && os != [] && WellTimed(os)
    ensures Instant(os, interval).Some? && Instant(os, interval).value <= os[|os| - 1].now
    ensures exists k: nat :: Instant(os, interval).value == GridPoint(os[0].now, k, interval)
  {
    ResamplerIsLogged(os, interval);
    assert OnGrid(LogAfter(os, interval).state, os, interval);
  }

  lemma NextInstant(os: seq<Observation>, interval: nat, n: nat)
    requires interval > 0 && 0 < n == |os| - 1 && WellTimed(os)
    ensures var last := Instant(os[..n], interval);
      && last.Some? && last.value <= os[n].now
      && Instant(os, interval) == Observed(Resampler(0, last), interval, os[n].now, os[n].delay).0.last
  {
    assert os[..n][n - 1] == os[n - 1] && os[n - 1].now <= os[n].now;
    InstantIsPast(os[..n], interval);
  }

  /** Over every run: it is close exactly when the previous instant was less than 2^32 ms before this arrival. */
  lemma GridIsCloseIff(os: seq<Observation>, interval: nat, n: nat)
    requires 0 < interval <= 4294967296 && n == |os| - 1 && WellTimed(os)
    ensures IsClose(Instant(os, interval), os[n].now, interval) <==>
      n == 0 || (Instant(os[..n], interval).Some? && os[n].now < Instant(os[..n], interval).value + 4294967296 * 1_000_000)
  {
    if n == 0 {
      FirstInstant(os, interval);
    } else {
      NextInstant(os, interval, n);
      CloseAfterIff(Instant(os[..n], interval).value, interval, os[n]);
    }
  }

  /** A gap of 2^32 ms: the cast reads it as no time at all and the instant stays behind. */
  lemma LongGapIsNotClose(interval: nat, delay: nat)
    requires 0 < interval <= 4294967296
    ensures var os := [Observation(0, 0), Observation(4294967296 * 1_000_000, delay)];
      WellTimed(os) && !IsClose(Instant(os, interval), os[1].now, interval)
  {
    var os := [Observation(0, 0), Observation(4294967296 * 1_000_000, delay)];
    assert os[..1] == [Observation(0, 0)];
    FirstInstant(os[..1], interval);
    GridIsCloseIff(os, interval, 1);
  }

  /** The last grid point at or before `now`. */
  function LastGridPoint(first: nat, now: nat, interval: nat): nat
    requires interval > 0
  {
    first + ElapsedMultiples(PassedMs(first, now), interval) * 1_000_000
  }

  lemma QuotientIs(p: nat, k: nat, interval: nat)
    requires interval > 0 && k * interval <= p < k * interval + interval
    ensures p / interval == k
  {
    var q := p / interval;
    WholeIntervals(p, interval);
    if q < k {
      MulLessEq(interval, q + 1, k);
    } else if k < q {
      MulLessEq(interval, k + 1, q);
    }
  }

  lemma CloseGridPoint(first: nat, k: nat, now: nat, interval: nat)
    requires interval > 0 && GridPoint(first, k, interval) <= now < GridPoint(first, k, interval) + interval * 1_000_000
    ensures GridPoint(first, k, interval) == LastGridPoint(first, now, interval)
  {
    var m := k * interval;
    assert m <= PassedMs(first, now) < m + interval;
    QuotientIs(PassedMs(first, now), k, interval);
  }

  lemma CloseInstant(os: seq<Observation>, interval: nat)
    requires interval > 0 && os != [] && WellTimed(os) && IsClose(Instant(os, interval), os[|os| - 1].now, interval)
    ensures Instant(os, interval).value == LastGridPoint(os[0].now, os[|os| - 1].now, interval)
  {
    InstantIsPast(os, interval);
    var k: nat :| Instant(os, interval).value == GridPoint(os[0].now, k, interval);
    CloseGridPoint(os[0].now, k, os[|os| - 1].now, interval);
  }

  /** After each of the first `n` observations the instant is close. */
  ghost predicate AlwaysClose(os: seq<Observation>, interval: nat, n: nat)
    requires interval > 0 && WellTimed(os) && n <= |os|
  {
    n == 0 || (AlwaysClose(os, interval, n - 1) && CloseAt(os, interval, n - 1))
  }

  ghost predicate CloseAt(os: seq<Observation>, interval: nat, i: nat)
    requires interval > 0 && WellTimed(os) && i < |os|
  {
    IsClose(Instant(os[..i + 1], interval), os[i].now, interval)
  }

  /** Each of the first `n` arrivals comes less than 2^32 ms after the last grid point before its predecessor. */
  ghost predicate NoLongGap(os: seq<Observation>, interval: nat, n: nat)
    requires interval > 0 && n <= |os|
  {
    n <= 1 || (NoLongGap(os, interval, n - 1) &&
               os[n - 1].now < LastGridPoint(os[0].now, os[n - 2].now, interval) + 4294967296 * 1_000_000)
  }

  lemma CloseAtIff(os: seq<Observation>, interval: nat, n: nat, instant: nat)
    requires 0 < interval <= 4294967296 && WellTimed(os) && 1 < n <= |os| && Instant(os[..n - 1], interval) == Some(instant)
    ensures CloseAt(os, interval, n - 1) <==> os[n - 1].now < instant + 4294967296 * 1_000_000
  {
    var prefix := os[..n];
    assert prefix[..n - 1] == os[..n - 1] && os[..(n - 1) + 1] == prefix && prefix[n - 1] == os[n - 1];
    GridIsCloseIff(prefix, interval, n - 1);
  }

  lemma InstantAt(os: seq<Observation>, interval: nat, i: nat)
    requires interval > 0 && WellTimed(os) && i < |os| && CloseAt(os, interval, i)
    ensures Instant(os[..i + 1], interval) == Some(LastGridPoint(os[0].now, os[i].now, interval))
  {
    var before := os[..i + 1];
    assert before[|before| - 1] == os[i] && before[0] == os[0];
    CloseInstant(before, interval);
  }

  lemma CloseStep(os: seq<Observation>, interval: nat, n: nat)
    requires 0 < interval <= 4294967296 && WellTimed(os) && 1 < n <= |os| && CloseAt(os, interval, n - 2)
    ensures CloseAt(os, interval, n - 1) <==>
      os[n - 1].now < LastGridPoint(os[0].now, os[n - 2].now, interval) + 4294967296 * 1_000_000
  {
    InstantAt(os, interval, n - 2);
    CloseAtIff(os, interval, n, LastGridPoint(os[0].now, os[n - 2].now, interval));
  }

  /** In terms of the arrival times alone: the instant is close throughout a run exactly without such gaps. */
  lemma {:induction false} AlwaysCloseIff(os: seq<Observation>, interval: nat, n: nat)
    requires 0 < interval <= 4294967296 && WellTimed(os) && n <= |os|
    ensures AlwaysClose(os, interval, n) <==> NoLongGap(os, interval, n)
  {
    if n == 0 {
    } else if n == 1 {
      FirstInstant(os[..1], interval);
      assert CloseAt(os, interval, 0);
      assert AlwaysClose(os, interval, 0);
    } else {
      AlwaysCloseIff(os, interval, n - 1);
      if AlwaysClose(os, interval, n - 1) {
        CloseStep(os, interval, n);
      }
    }
  }

  // ===== delay bounds =================================================================

  datatype Bounds = Bounds(lower: nat, upper: nat)

  /** Effective bounds from the base bounds and the user's limits (0: not set). */
  function EffectiveBounds(baseMin: nat, baseMax: nat, userMin: nat, userMax: nat): Bounds {
    var lower := Min(baseMin, baseMax);
    var effMin := if userMin > 0 then Min(Max(userMin, lower), baseMax) else lower;
    var effMax := if userMax > 0 then Min(Max(userMax, effMin), baseMax) else baseMax;
    Bounds(effMin, effMax)
  }

  function Clamped(x: nat, b: Bounds): nat { Min(Max(x, b.lower), b.upper) }

  /** The effective bounds are ordered, within the base maximum, and honour each limit as far as possible. */
  lemma BoundsAreOrdered(baseMin: nat, baseMax: nat, userMin: nat, userMax: nat, target: nat)
    ensures var b := EffectiveBounds(baseMin, baseMax, userMin, userMax);
      && b.lower <= b.upper <= baseMax
      && b.lower <= Clamped(target, b) <= b.upper
      && (baseMin <= baseMax ==> baseMin <= b.lower)
      && (userMin > 0 && Min(baseMin, baseMax) <= userMin <= baseMax ==> b.lower == userMin)
      && (userMax > 0 && b.lower <= userMax <= baseMax ==> b.upper == userMax)
      && (userMin == 0 && baseMin <= baseMax ==> b.lower == baseMin) && (userMax == 0 ==> b.upper == baseMax)
  {
  }

  /** The base bounds, the user's limits and the effective bounds computed from them. */
  datatype Limits = Limits(baseMin: nat, baseMax: nat, userMin: nat, userMax: nat, effective: Bounds) {
    function Recomputed(): Limits { this.(effective := EffectiveBounds(baseMin, baseMax, userMin, userMax)) }
  }

  /** A delay below 2000 ms, the range of the histogram. */
  predicate IsRegistered(delay: Option<nat>, buckets: nat) { delay.Some? && delay.value / 20 < buckets }

  /** A registered delay adds one observation to its 20 ms bucket; 2000 ms and more is not registered. */
  ghost function Registered(buckets: seq<int>, forget: int, delay: Option<nat>): seq<int> {
    if IsRegistered(delay, |buckets|) then Added(buckets, forget, delay.value / 20) else buckets
  }

  /** The target is 20 ms times one more than the quantile bucket, clamped to the bounds. */
  ghost predicate IsTarget(buckets: seq<int>, quantile: real, b: Bounds, targetMs: nat) {
    exists index: nat :: IsQuantile(buckets, ToQ30(quantile), index) && targetMs == Clamped((1 + index) * 20, b)
  }

  lemma {:induction false} ZeroCumulative(buckets: seq<int>, i: nat)
    requires i < |buckets| && forall k :: 0 <= k < |buckets| ==> buckets[k] == 0
    ensures Cumulative(buckets, i) == 0
  {
    ZeroTotal(buckets[..i + 1]);
  }

  /** Before the first registration the histogram is empty and the target is the longest delay it can express. */
  lemma UntrainedTargetIsLongest(buckets: seq<int>, quantile: real, b: Bounds, targetMs: nat)
    requires forall k :: 0 <= k < |buckets| ==> buckets[k] == 0
    requires IsTarget(buckets, quantile, b, targetMs)
    ensures targetMs == Clamped(if ToQ30(quantile) > 0 then |buckets| * 20 else 20, b)
  {
    var index: nat :| IsQuantile(buckets, ToQ30(quantile), index) && targetMs == Clamped((1 + index) * 20, b);
    ZeroCumulative(buckets, index);
    ZeroCumulative(buckets, 0);
  }

  lemma {:induction false} OneBucketCumulative(buckets: seq<int>, k: nat, mass: int, i: nat)
    requires i < |buckets| && k < |buckets| && buckets[k] == mass && forall j :: 0 <= j < |buckets| && j != k ==> buckets[j] == 0
    ensures Cumulative(buckets, i) == if k <= i then mass else 0
  {
    var prefix := buckets[..i + 1];
    if k <= i {
      TotalUpdate(prefix, k, 0);
      ZeroTotal(prefix[k := 0]);
    } else {
      ZeroTotal(prefix);
    }
  }

  /** The first registered delay sets the target to the multiple of 20 ms just above it. */
  lemma FirstDelaySetsTheTarget(buckets: seq<int>, delayMs: nat, quantile: real, b: Bounds, targetMs: nat)
    requires |buckets| == 100 && (forall k :: 0 <= k < 100 ==> buckets[k] == 0) && delayMs < 2000
    requires 0.0 <= quantile <= 1.0 && ToQ30(quantile) > 0
    requires IsTarget(Registered(buckets, 0, Some(delayMs)), quantile, b, targetMs)
    ensures exists above: nat :: delayMs < above <= delayMs + 20 && above % 20 == 0 && targetMs == Clamped(above, b)
  {
    var k := delayMs / 20;
    var after := Registered(buckets, 0, Some(delayMs));
    FirstSampleTakesAll(buckets, k);
    ToQ30InRange(quantile);
    var index: nat :| IsQuantile(after, ToQ30(quantile), index) && targetMs == Clamped((1 + index) * 20, b);
    OneBucketCumulative(after, k, 0x4000_0000, index);
    OneBucketCumulative(after, k, 0x4000_0000, k);
    assert index == k;
    var above := (1 + k) * 20;
    assert delayMs < above <= delayMs + 20 && above % 20 == 0;
  }

  /** With nothing remembered the new sample takes the whole mass. */
  lemma FirstSampleTakesAll(buckets: seq<int>, k: nat)
    requires |buckets| == 100 && (forall j :: 0 <= j < 100 ==> buckets[j] == 0) && k < 100
    ensures var after := Added(buckets, 0, k);
      |after| == 100 && after[k] == 0x4000_0000 && forall j :: 0 <= j < 100 && j != k ==> after[j] == 0
  {
    var w := Weighted(buckets, 0, k);
    assert forall j :: 0 <= j < 100 ==> w[j] == if j == k then 0x4000_0000 else 0;
    OneBucketCumulative(w, k, 0x4000_0000, 99);
    assert w[..100] == w;
    assert Total(w) == 0x4000_0000;
    ZeroRest(w);
  }

  lemma {:induction false} ZeroRest(w: seq<int>)
    requires NonNegative(w)
    ensures Corrected(w, 0) == w
  {
    if w == [] {
    } else {
      ZeroRest(w[1..]);
      assert w == [w[0]] + w[1..];
    }
  }

  /** The target is determined by the histogram, and grows with the quantile. */
  lemma TargetIsMonotone(buckets: seq<int>, p: real, q: real, b: Bounds, low: nat, high: nat)
    requires p <= q && IsTarget(buckets, p, b, low) && IsTarget(buckets, q, b, high)
    ensures low <= high
    ensures p == q ==> low == high
  {
    var i: nat :| IsQuantile(buckets, ToQ30(p), i) && low == Clamped((1 + i) * 20, b);
    var j: nat :| IsQuantile(buckets, ToQ30(q), j) && high == Clamped((1 + j) * 20, b);
    RoundMonotone(p * 1073741824.0, q * 1073741824.0);
    QuantileIsMonotone(buckets, ToQ30(p), ToQ30(q), i, j);
  }

  // ===== one call =====================================================================

  /** The state of a delay manager apart from its histogram and target. */
  datatype Manager = Manager(tracker: Tracker, resampler: Resampler, limits: Limits)

  datatype Settings = Settings(quantile: real, intervalMs: Option<nat>, maxHistoryMs: nat) {
    ghost predicate Valid() { 0.0 <= quantile <= 1.0 && (intervalMs.Some? ==> intervalMs.value > 0) }
  }

  datatype Arrival = Arrival(timestamp: nat, sampleRate: nat, reset: bool, now: nat)

  /** As configured: the base bounds are taken as they are, ordered or not. */
  function NewManager(baseMin: nat, baseMax: nat): Manager {
    Manager(NEW_TRACKER, Resampler(0, None), Limits(baseMin, baseMax, 0, 0, Bounds(baseMin, baseMax)))
  }

  /** A new manager has seen nothing and has no limits of the user. */
  lemma NewManagerIsBlank(baseMin: nat, baseMax: nat)
    ensures var m := NewManager(baseMin, baseMax);
      && m.tracker.history == [] && m.tracker.lastTimestamp.None? && m.tracker.lastPacketTime.None?
      && m.resampler.maxDelay == 0 && m.resampler.last.None?
      && m.limits.userMin == m.limits.userMax == 0
      && m.limits.baseMin == m.limits.effective.lower == baseMin && m.limits.baseMax == m.limits.effective.upper == baseMax
  {
  }

  function Restarted(m: Manager): Manager { m.(tracker := NEW_TRACKER, resampler := Resampler(0, None)) }

  /** One packet arrives: `delay` is observed, and `registered` goes to the histogram. */
  ghost predicate IsArrival(m: Manager, a: Arrival, c: Settings, m': Manager, delay: nat, registered: Option<nat>)
    requires c.Valid() && a.sampleRate > 0
  {
    var start := if a.reset then Restarted(m) else m;
    && m'.tracker == Tracked(start.tracker, a.timestamp, a.sampleRate, a.now, c.maxHistoryMs)
    && IsPercentile(PositiveDelays(m'.tracker.history), c.quantile, delay)
    && (match c.intervalMs
        case Some(interval) => (m'.resampler, registered) == Observed(start.resampler, interval, a.now, delay)
        case None => m'.resampler == start.resampler && registered == Some(delay))
    && m'.limits == m.limits
  }

  // ===== the classes ==================================================================

  class RelativeArrivalDelayTracker {
    const maxHistoryMs: nat
    const quantile: real
    var history: seq<PacketDelay>
    var lastTimestamp: Option<nat>
    var lastPacketTime: Option<nat>

    ghost function View(): Tracker
      reads this
    {
      Tracker(history, lastTimestamp, lastPacketTime)
    }

    constructor (maxHistoryMs: nat, quantile: real)
      ensures View() == NEW_TRACKER && this.maxHistoryMs == maxHistoryMs && this.quantile == quantile
    {
      this.maxHistoryMs, this.quantile := maxHistoryMs, quantile;
      history, lastTimestamp, lastPacketTime := [], None, None;
    }

    /** Keeps exactly the recent entries, in order. */
    method RetainRecent(now: nat)
      modifies this`history
      ensures history == Recent(old(history), now, maxHistoryMs)
    {
      var kept: seq<PacketDelay> := [];
      for i := 0 to |history|
        invariant history == old(history) && kept == Recent(history[..i], now, maxHistoryMs)
      {
        assert history[..i + 1][..i] == history[..i];
        if IsRecent(history[i], now, maxHistoryMs) {
          kept := kept + [history[i]];
        }
      }
      assert history[..|history|] == history;
      history := kept;
    }

    /** The configured percentile of the late arrivals in the history. */
    method CalculateRelativePacketArrivalDelay() returns (delay: nat)
      requires 0.0 <= quantile <= 1.0
      ensures IsPercentile(PositiveDelays(history), quantile, delay)
    {
      if history == [] {
        return 0;
      }
      var positiveDelays: seq<nat> := [];
      for i := 0 to |history|
        invariant positiveDelays == PositiveDelays(history[..i])
      {
        positiveDelays := positiveDelays + [Max(history[i].iatDelayMs, 0)];
      }
      assert history[..|history|] == history;
      SortedRankIsPercentile(positiveDelays, quantile);
      delay := Sort(positiveDelays)[PercentileIndex(|positiveDelays|, quantile)];
    }

    method UpdateDelayHistory(iatDelayMs: int, now: nat)
      modifies this`history
      ensures history == Recent(old(history) + [PacketDelay(iatDelayMs, now)], now, maxHistoryMs)
    {
      history := history + [PacketDelay(iatDelayMs, now)];
      RetainRecent(now);
    }

    method InterArrival(timestamp: nat, sampleRate: nat, now: nat) returns (iatDelayMs: int)
      requires sampleRate > 0
      ensures iatDelayMs == InterArrivalDelay(View(), timestamp, sampleRate, now)
    {
      var expectedIat := if lastTimestamp.Some? then ExpectedMs(lastTimestamp.value, timestamp, sampleRate) else 0;
      var actualIat := if lastPacketTime.Some? then PassedMs(lastPacketTime.value, now) else 0;
      iatDelayMs := actualIat - expectedIat;
    }

    method Update(timestamp: nat, sampleRate: nat, now: nat) returns (delay: nat)
      requires sampleRate > 0 && 0.0 <= quantile <= 1.0
      modifies this
      ensures View() == Tracked(old(View()), timestamp, sampleRate, now, maxHistoryMs)
      ensures IsPercentile(PositiveDelays(history), quantile, delay)
    {
      var iatDelayMs := InterArrival(timestamp, sampleRate, now);
      lastPacketTime := Some(now);
      UpdateDelayHistory(iatDelayMs, now);
      delay := CalculateRelativePacketArrivalDelay();
      lastTimestamp := Some(timestamp);
    }

    method Reset()
      modifies this
      ensures View() == NEW_TRACKER
    {
      history, lastTimestamp, lastPacketTime := [], None, None;
    }
  }

  const START_DELAY_MS: nat := 80
  const DELAY_BUCKETS: nat := 100

  class DelayManager {
    const quantile: real
    const resampleIntervalMs: Option<nat>
    const additionalDelayMs: nat
    const tracker: RelativeArrivalDelayTracker
    const histogram: Histogram
    var baseMinimumMs: nat
    var baseMaximumMs: nat
    var targetLevelMs: nat
    var minimumMs: nat
    var maximumMs: nat
    var effective: Bounds
    var resampledRelativeDelay: nat
    var lastResampleTime: Option<nat>

    ghost predicate Valid()
      reads this, tracker, histogram, histogram.buckets
    {
      && histogram.Valid() && histogram.buckets.Length == DELAY_BUCKETS
      && 0.0 <= quantile <= 1.0 && tracker.quantile == quantile
      && (resampleIntervalMs.Some? ==> resampleIntervalMs.value > 0)
      && (histogram.adds == 0 ==> forall k :: 0 <= k < histogram.buckets.Length ==> histogram.buckets[k] == 0)
    }

    ghost function Resampling(): Resampler
      reads this
    {
      Resampler(resampledRelativeDelay, lastResampleTime)
    }

    function GetSettings(): Settings {
      Settings(quantile, resampleIntervalMs, tracker.maxHistoryMs)
    }

    ghost function GetLimits(): Limits
      reads this
    {
      Limits(baseMinimumMs, baseMaximumMs, minimumMs, maximumMs, effective)
    }

    ghost function Managed(): Manager
      reads this, tracker
    {
      Manager(tracker.View(), Resampling(), GetLimits())
    }

    constructor (quantile: real, forgetFactor: real, startWeight: Option<real>, resampleIntervalMs: Option<nat>,
                 maxHistoryMs: nat, baseMinimumMs: nat, baseMaximumMs: nat, additionalDelayMs: nat)
      requires 0.0 <= quantile <= 1.0 && 0.0 <= forgetFactor && Round(forgetFactor * 32768.0) < 32768
      requires resampleIntervalMs.Some? ==> resampleIntervalMs.value > 0
      ensures Valid() && fresh(tracker) && fresh(histogram) && fresh(histogram.buckets)
      ensures targetLevelMs == Max(START_DELAY_MS, baseMinimumMs)
      ensures Managed() == NewManager(baseMinimumMs, baseMaximumMs)
      ensures this.quantile == quantile && this.resampleIntervalMs == resampleIntervalMs && tracker.maxHistoryMs == maxHistoryMs
      ensures histogram.adds == 0
    {
      this.quantile, this.resampleIntervalMs, this.additionalDelayMs := quantile, resampleIntervalMs, additionalDelayMs;
      tracker := new RelativeArrivalDelayTracker(maxHistoryMs, quantile);
      histogram := new Histogram(DELAY_BUCKETS, forgetFactor, startWeight);
      this.baseMinimumMs, this.baseMaximumMs := baseMinimumMs, baseMaximumMs;
      targetLevelMs := Max(START_DELAY_MS, baseMinimumMs);
      minimumMs, maximumMs, effective := 0, 0, Bounds(baseMinimumMs, baseMaximumMs);
      resampledRelativeDelay, lastResampleTime := 0, None;
    }

    method Update(timestamp: nat, sampleRate: nat, reset: bool, now: nat) returns (ghost delay: nat, ghost registered: Option<nat>)
      requires Valid() && sampleRate > 0
      modifies this, tracker, histogram, histogram.buckets
      ensures Valid()
      ensures IsArrival(old(Managed()), Arrival(timestamp, sampleRate, reset, now), GetSettings(), Managed(), delay, registered)
      ensures histogram.buckets[..] == Registered(old(histogram.buckets[..]), old(histogram.forgetFactor), registered)
      ensures histogram.adds == old(histogram.adds) + (if IsRegistered(registered, DELAY_BUCKETS) then 1 else 0)
      ensures IsTarget(histogram.buckets[..], quantile, effective, targetLevelMs)
      ensures histogram.adds == 0 ==> targetLevelMs == Clamped(if ToQ30(quantile) > 0 then 2000 else 20, effective)
    {
      if reset {
        Reset();
      }
      var relativeDelay := tracker.Update(timestamp, sampleRate, now);
      delay, registered := relativeDelay, Some(relativeDelay);
      if resampleIntervalMs.Some? {
        registered := Resample(resampleIntervalMs.value, now, relativeDelay);
      } else {
        RegisterRelativeDelay(relativeDelay);
      }
      UpdateTargetDelay();
      if histogram.adds == 0 {
        UntrainedTargetIsLongest(histogram.buckets[..], quantile, effective, targetLevelMs);
      }
    }

    /** Registers the maximum of the last interval once it is over. */
    method Resample(interval: nat, now: nat, relativeDelay: nat) returns (ghost registered: Option<nat>)
      requires Valid() && interval > 0
      modifies this`resampledRelativeDelay, this`lastResampleTime, histogram, histogram.buckets
      ensures Valid()
      ensures (Resampling(), registered) == Observed(old(Resampling()), interval, now, relativeDelay)
      ensures histogram.buckets[..] == Registered(old(histogram.buckets[..]), old(histogram.forgetFactor), registered)
      ensures histogram.adds == old(histogram.adds) + (if IsRegistered(registered, DELAY_BUCKETS) then 1 else 0)
    {
      registered := None;
      if lastResampleTime.Some? {
        var elapsedMs := ElapsedMs(lastResampleTime.value, now);
        if elapsedMs >= interval {
          registered := Some(resampledRelativeDelay);
          RegisterRelativeDelay(resampledRelativeDelay);
          resampledRelativeDelay := 0;
          var elapsedMultiples := ElapsedMultiples(elapsedMs, interval);
          lastResampleTime := Some(lastResampleTime.value + elapsedMultiples * 1_000_000);
        }
      } else {
        lastResampleTime := Some(now);
      }
      resampledRelativeDelay := Max(resampledRelativeDelay, relativeDelay);
    }

    method RegisterRelativeDelay(relativeDelay: nat)
      requires Valid()
      modifies histogram, histogram.buckets
      ensures Valid()
      ensures histogram.buckets[..] == Registered(old(histogram.buckets[..]), old(histogram.forgetFactor), Some(relativeDelay))
      ensures histogram.adds == old(histogram.adds) + (if IsRegistered(Some(relativeDelay), DELAY_BUCKETS) then 1 else 0)
    {
      var index := relativeDelay / 20;
      if index < histogram.buckets.Length {
        histogram.Add(index);
      }
    }

    method UpdateTargetDelay()
      requires Valid()
      modifies this`targetLevelMs
      ensures Valid()
      ensures IsTarget(histogram.buckets[..], quantile, effective, targetLevelMs)
    {
      var bucketIndex := histogram.Quantile(quantile);
      targetLevelMs := Clamped((1 + bucketIndex) * 20, effective);
    }

    method Reset()
      requires Valid()
      modifies this`targetLevelMs, this`resampledRelativeDelay, this`lastResampleTime, tracker
      ensures Valid() && Managed() == Restarted(old(Managed()))
      ensures targetLevelMs == Max(START_DELAY_MS, baseMinimumMs)
    {
      tracker.Reset();
      targetLevelMs := Max(START_DELAY_MS, baseMinimumMs);
      resampledRelativeDelay, lastResampleTime := 0, None;
    }

    function TargetDelayMs(): (r: nat)
      reads this
      ensures effective.lower <= targetLevelMs + additionalDelayMs <= effective.upper ==> r == targetLevelMs + additionalDelayMs
      ensures effective.lower <= effective.upper ==> effective.lower <= r <= effective.upper
    {
      Clamped(targetLevelMs + additionalDelayMs, effective)
    }

    method UpdateEffectiveDelayBounds()
      modifies this`effective
      ensures GetLimits() == old(GetLimits()).Recomputed()
    {
      effective := EffectiveBounds(baseMinimumMs, baseMaximumMs, minimumMs, maximumMs);
    }

    method SetMinimumDelay(delayMs: nat) returns (effectiveMs: nat)
      modifies this`minimumMs, this`effective
      ensures GetLimits() == old(GetLimits()).(userMin := delayMs).Recomputed() && effectiveMs == effective.lower
      ensures effective.lower <= TargetDelayMs() <= effective.upper <= baseMaximumMs
    {
      minimumMs := delayMs;
      UpdateEffectiveDelayBounds();
      effectiveMs := effective.lower;
    }

    method SetMaximumDelay(delayMs: nat) returns (effectiveMs: nat)
      modifies this`maximumMs, this`effective
      ensures GetLimits() == old(GetLimits()).(userMax := delayMs).Recomputed() && effectiveMs == effective.upper
      ensures effective.lower <= TargetDelayMs() <= effective.upper <= baseMaximumMs
    {
      maximumMs := delayMs;
      UpdateEffectiveDelayBounds();
      effectiveMs := effective.upper;
    }

    method SetBaseMinimumDelay(delayMs: nat)
      modifies this`baseMinimumMs, this`effective
      ensures GetLimits() == old(GetLimits()).(baseMin := delayMs).Recomputed()
      ensures effective.lower <= TargetDelayMs() <= effective.upper <= baseMaximumMs
    {
      baseMinimumMs := delayMs;
      UpdateEffectiveDelayBounds();
    }

    method SetBaseMaximumDelay(delayMs: nat)
      modifies this`baseMaximumMs, this`effective
      ensures GetLimits() == old(GetLimits()).(baseMax := delayMs).Recomputed()
      ensures effective.lower <= TargetDelayMs() <= effective.upper <= baseMaximumMs
    {
      baseMaximumMs := delayMs;
      UpdateEffectiveDelayBounds();
    }
  }
}
