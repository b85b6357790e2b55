/** Whole runs of the delay manager: every mix of updates, resets and setters. */
module DelayRuns {
  import opened Options
  import opened DelayManagement

  datatype Event =
    | Update(arrival: Arrival, delay: nat, registered: Option<nat>)
    | Reset
    | SetMinimum(ms: nat)
    | SetMaximum(ms: nat)
    | SetBaseMinimum(ms: nat)
    | SetBaseMaximum(ms: nat)

  predicate IsSetter(e: Event) { e.SetMinimum? || e.SetMaximum? || e.SetBaseMinimum? || e.SetBaseMaximum? }

  /** The limits after a call; only setters change them. */
  function NextLimits(l: Limits, e: Event): Limits {
    match e
    case SetMinimum(ms) => l.(userMin := ms).Recomputed()
    case SetMaximum(ms) => l.(userMax := ms).Recomputed()
    case SetBaseMinimum(ms) => l.(baseMin := ms).Recomputed()
    case SetBaseMaximum(ms) => l.(baseMax := ms).Recomputed()
    case _ => l
  }

  /** One call takes `m` to `m'`. */
  ghost predicate IsStep(m: Manager, e: Event, c: Settings, m': Manager)
    requires c.Valid()
  {
    match e
    case Update(a, delay, registered) => a.sampleRate > 0 && IsArrival(m, a, c, m', delay, registered)
    case Reset => m' == Restarted(m)
    case _ => m' == m.(limits := NextLimits(m.limits, e))
  }

  /** The manager before each call and after the last. */
  ghost predicate IsRun(c: Settings, events: seq<Event>, ms: seq<Manager>) {
    && c.Valid() && |ms| == |events| + 1
    && (exists baseMin: nat, baseMax: nat :: ms[0] == NewManager(baseMin, baseMax))
    && (forall i :: 0 <= i < |events| ==> IsStep(ms[i], events[i], c, ms[i + 1]))
    && (forall i, j :: 0 <= i < j < |events| && events[i].Update? && events[j].Update? ==>
          events[i].arrival.now <= events[j].arrival.now)
  }

  // ----- what was observed and registered since the last reset -----------------------------

  predicate Restarts(e: Event) { e.Reset? || (e.Update? && e.arrival.reset) }

  /** The delays observed by the first `n` calls, from the last reset on. */
  ghost function Seen(events: seq<Event>, n: nat): seq<Observation>
    requires n <= |events|
  {
    if n == 0 then []
    else
      var e := events[n - 1];
      var before := if Restarts(e) then [] else Seen(events, n - 1);
      if e.Update? then before + [Observation(e.arrival.now, e.delay)] else before
  }

  /** The log of those observations: what the resampler registered, and which observations each registration covers. */
  ghost function LogOf(events: seq<Event>, n: nat, interval: nat): Log
    requires n <= |events| && interval > 0
  {
    if n == 0 then Log(Resampler(0, None), 0, [])
    else
      var e := events[n - 1];
      var before := if Restarts(e) then Log(Resampler(0, None), 0, []) else LogOf(events, n - 1, interval);
      var seen := if Restarts(e) then [] else Seen(events, n - 1);
      if e.Update? then NextLog(before, |seen|, Observation(e.arrival.now, e.delay), interval) else before
  }

  /** The observations come in order, none later than the latest update. */
  lemma {:induction false} SeenIsTimed(c: Settings, events: seq<Event>, ms: seq<Manager>, n: nat, later: nat)
    requires IsRun(c, events, ms) && n <= |events|
    requires forall i :: 0 <= i < n && events[i].Update? ==> events[i].arrival.now <= later
    ensures WellTimed(Seen(events, n))
    ensures forall i :: 0 <= i < |Seen(events, n)| ==> Seen(events, n)[i].now <= later
  {
    if n == 0 {
    } else if events[n - 1].Update? {
      SeenIsTimed(c, events, ms, n - 1, events[n - 1].arrival.now);
    } else {
      SeenIsTimed(c, events, ms, n - 1, later);
    }
  }

  /** The manager's resampler is the one of the log, and the log is right. */
  ghost predicate Logged(m: Manager, events: seq<Event>, n: nat, interval: nat)
    requires n <= |events| && interval > 0
  {
    m.resampler == LogOf(events, n, interval).state && LogOk(LogOf(events, n, interval), Seen(events, n), interval)
  }

  /** An update appends one observation to a right log. */
  lemma UpdateLogged(m: Manager, e: Event, c: Settings, m': Manager, log: Log, seen: seq<Observation>, interval: nat)
    requires c.Valid() && c.intervalMs == Some(interval) && e.Update? && IsStep(m, e, c, m')
    requires log.state == (if e.arrival.reset then Resampler(0, None) else m.resampler)
    requires LogOk(log, seen, interval) && WellTimed(seen + [Observation(e.arrival.now, e.delay)])
    ensures var o := Observation(e.arrival.now, e.delay);
      && m'.resampler == NextLog(log, |seen|, o, interval).state
      && LogOk(NextLog(log, |seen|, o, interval), seen + [o], interval)
  {
    LogKept(log, seen, interval, Observation(e.arrival.now, e.delay));
  }

  /**
   Over every mix of calls: the resample instant is on the grid of the first arrival since the last
   reset, what is being collected is the maximum since the last registration, and the registrations
   tile the observations since the reset, each with the maximum of its stretch.
   */
  lemma {:induction false} RunsAreLogged(c: Settings, events: seq<Event>, ms: seq<Manager>, n: nat, interval: nat)
    requires IsRun(c, events, ms) && n <= |events| && c.intervalMs == Some(interval)
    ensures Logged(ms[n], events, n, interval)
  {
    if n == 0 {
    } else {
      RunsAreLogged(c, events, ms, n - 1, interval);
      var e := events[n - 1];
      assert IsStep(ms[n - 1], e, c, ms[(n - 1) + 1]);
      if e.Update? {
        SeenIsTimed(c, events, ms, n, e.arrival.now);
        var log := if Restarts(e) then Log(Resampler(0, None), 0, []) else LogOf(events, n - 1, interval);
        var seen := if Restarts(e) then [] else Seen(events, n - 1);
        UpdateLogged(ms[n - 1], e, c, ms[n], log, seen, interval);
      }
    }
  }

  // ----- what the histogram got -------------------------------------------------------------

  /** The values handed to the histogram by the first `n` calls, from the last reset on. */
  ghost function RegisteredValues(events: seq<Event>, n: nat): seq<nat>
    requires n <= |events|
  {
    if n == 0 then []
    else
      var e := events[n - 1];
      var before := if Restarts(e) then [] else RegisteredValues(events, n - 1);
      if e.Update? && e.registered.Some? then before + [e.registered.value] else before
  }

  ghost function Values(rs: seq<Registration>): seq<nat> {
    seq(|rs|, i requires 0 <= i < |rs| => rs[i].value)
  }

  lemma NextValues(log: Log, index: nat, o: Observation, interval: nat)
    requires interval > 0
    ensures var registered := Observed(log.state, interval, o.now, o.delay).1;
      Values(NextLog(log, index, o, interval).registrations)
      == Values(log.registrations) + (if registered.Some? then [registered.value] else [])
  {
  }

  /** Over every mix of calls the histogram gets exactly the values of the log: the maxima of its stretches. */
  lemma {:induction false} HistogramGetsTheLog(c: Settings, events: seq<Event>, ms: seq<Manager>, n: nat, interval: nat)
    requires IsRun(c, events, ms) && n <= |events| && c.intervalMs == Some(interval)
    ensures RegisteredValues(events, n) == Values(LogOf(events, n, interval).registrations)
  {
    if n == 0 {
    } else {
      var e := events[n - 1];
      HistogramGetsTheLog(c, events, ms, n - 1, interval);
      RunsAreLogged(c, events, ms, n - 1, interval);
      assert IsStep(ms[n - 1], e, c, ms[(n - 1) + 1]);
      if e.Update? {
        var log := if Restarts(e) then Log(Resampler(0, None), 0, []) else LogOf(events, n - 1, interval);
        var seen := if Restarts(e) then [] else Seen(events, n - 1);
        NextValues(log, |seen|, Observation(e.arrival.now, e.delay), interval);
      }
    }
  }

  // ----- bounds ------------------------------------------------------------------------------

  /** Ordered bounds within the base maximum: any target is clamped between them. */
  ghost predicate BoundsOk(l: Limits) {
    && l.effective.lower <= l.effective.upper <= l.baseMax
    && (forall target: nat :: l.effective.lower <= Clamped(target, l.effective) <= l.effective.upper)
  }

  /**
   Over every mix of calls: from the first setter on the effective bounds are the ones computed from
   the current limits; before it they are the configured ones.
   */
  lemma {:induction false} RunLimits(c: Settings, events: seq<Event>, ms: seq<Manager>, n: nat)
    requires IsRun(c, events, ms) && n <= |events|
    ensures (exists i :: 0 <= i < n && IsSetter(events[i])) ==> ms[n].limits == ms[n].limits.Recomputed()
    ensures !(exists i :: 0 <= i < n && IsSetter(events[i])) ==>
      ms[n].limits == ms[0].limits && ms[n].limits.effective == Bounds(ms[n].limits.baseMin, ms[n].limits.baseMax)
  {
    if n == 0 {
    } else {
      RunLimits(c, events, ms, n - 1);
      assert IsStep(ms[n - 1], events[n - 1], c, ms[(n - 1) + 1]);
      assert ms[n].limits == NextLimits(ms[n - 1].limits, events[n - 1]);
    }
  }

  /** After any setter minimum <= maximum <= base maximum; without one, exactly if configured so. */
  lemma RunBoundsIff(c: Settings, events: seq<Event>, ms: seq<Manager>, n: nat)
    requires IsRun(c, events, ms) && n <= |events|
    ensures BoundsOk(ms[n].limits) <==>
      (exists i :: 0 <= i < n && IsSetter(events[i])) || ms[0].limits.baseMin <= ms[0].limits.baseMax
  {
    RunLimits(c, events, ms, n);
    var l := ms[n].limits;
    BoundsAreOrdered(l.baseMin, l.baseMax, l.userMin, l.userMax, 0);
  }
}
