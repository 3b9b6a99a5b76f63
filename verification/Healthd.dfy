/** The per-profile poll loop of healthd (control-plane/cmd/healthd/main.go): sample, decide,
    publish on a transition, keep the tx baseline. Network reads enter as observations. */
module Healthd {
  import opened Text
  import opened Vpn

  datatype WgReading = WgReading(rx: Counter, tx: Counter, latest: Instant)

  /** What one poll saw: gluetun unreachable, or an egress address with a `wg` reading that may have
      failed and a through-tunnel probe that may be absent or have failed (`probed` false). */
  datatype Observation =
    | Unreachable
    | Reached(egress: string, wg: Option<WgReading>, probed: bool)

  /** One tick's input: when the sampler stamped it, when a failed sample was reported, what was
      seen, and whether publishing an event would succeed. */
  datatype Tick = Tick(stampedAt: Instant, failedAt: Instant, seen: Observation, publishes: bool)

  datatype Rules = Rules(hostIP: string, freshness: Duration)

  /** What a tick carries over to the next one. */
  datatype Loop = Loop(prev: Snapshot, lastReported: State)

  const FRESH_LOOP := Loop(ZERO_SNAPSHOT, Unknown)

  /** The snapshot that a poll of a reachable gluetun gathers, before the verdict. */
  function Gathered(profile: string, at: Instant, seen: Observation): Snapshot
    requires seen.Reached?
  {
    var counters := if seen.wg.Some? then seen.wg.value else WgReading(0, 0, ZERO_TIME);
    Snapshot(profile, Unknown, counters.latest, counters.rx, counters.tx, seen.egress, at,
             if seen.probed then at else ZERO_TIME)
  }

  function Poll(k: Rules, profile: string, prev: Snapshot, t: Tick): Snapshot {
    if t.seen.Unreachable? then
      ZERO_SNAPSHOT.(profile := profile, state := Down, checkedAt := t.failedAt)
    else
      var cur := Gathered(profile, t.stampedAt, t.seen);
      cur.(state := DecideHealth(prev, cur, k.hostIP, k.freshness))
  }

  /** What a poll reports, fact by fact: each source is read for itself, so a probe beside a `wg` reading
      keeps the counters, and a failed one takes nothing away. An unreachable gluetun leaves only the time
      of the failure. */
  lemma PollReports(k: Rules, profile: string, prev: Snapshot, t: Tick)
    ensures var cur, seen := Poll(k, profile, prev, t), t.seen;
            && cur.profile == profile
            && cur.checkedAt == (if seen.Reached? then t.stampedAt else t.failedAt)
            && cur.egressIP == (if seen.Reached? then seen.egress else "")
            && cur.rx == (if seen.Reached? && seen.wg.Some? then seen.wg.value.rx else 0)
            && cur.tx == (if seen.Reached? && seen.wg.Some? then seen.wg.value.tx else 0)
            && cur.lastHandshake == (if seen.Reached? && seen.wg.Some? then seen.wg.value.latest else ZERO_TIME)
            && cur.liveProbeAt == (if seen.Reached? && seen.probed then t.stampedAt else ZERO_TIME)
  {
  }

  /** A poll finds the tunnel up exactly when gluetun was reached with a real egress, and either the `wg`
      reading had a recent handshake and more bytes than the baseline, or the probe got through. */
  lemma PollFindsUpExactly(k: Rules, profile: string, prev: Snapshot, t: Tick)
    ensures Poll(k, profile, prev, t).state == Up
       <==> && t.seen.Reached? && k.freshness > 0
            && t.seen.egress != "" && (k.hostIP == "" || t.seen.egress != k.hostIP)
            && (|| (t.seen.wg.Some? && t.seen.wg.value.tx > prev.tx
                    && Recent(t.seen.wg.value.latest, t.stampedAt, k.freshness))
                || (t.seen.probed && t.stampedAt != ZERO_TIME))
    ensures Poll(k, profile, prev, t).state != Up ==> Poll(k, profile, prev, t).state == Down
  {
  }

  /** The poll carried counters: a positive tx or a handshake. */
  predicate Reading(s: Snapshot) { s.tx > 0 || s.lastHandshake != ZERO_TIME }

  function Advance(l: Loop, cur: Snapshot): Loop {
    Loop(if cur.state == Up || Reading(cur) then cur else l.prev, cur.state)
  }

  // ---------------------------------------------------------------- the loop

  method Sample(profile: string, now: Instant, seen: Observation) returns (snap: Snapshot, failed: bool)
    ensures failed == seen.Unreachable?
    ensures failed ==> snap == ZERO_SNAPSHOT.(profile := profile, checkedAt := now)
    ensures !failed ==> snap == Gathered(profile, now, seen)
  {
    snap := ZERO_SNAPSHOT.(profile := profile, checkedAt := now);
    if seen.Unreachable? { return snap, true; }
    snap := snap.(egressIP := seen.egress);
    if seen.wg.Some? {
      snap := snap.(rx := seen.wg.value.rx, tx := seen.wg.value.tx, lastHandshake := seen.wg.value.latest);
    }
    if seen.probed { snap := snap.(liveProbeAt := snap.checkedAt); }
    failed := false;
  }

  method PollOnce(k: Rules, profile: string, prev: Snapshot, t: Tick) returns (cur: Snapshot)
    ensures cur == Poll(k, profile, prev, t)
  {
    var failed;
    cur, failed := Sample(profile, t.stampedAt, t.seen);
    if failed {
      cur := ZERO_SNAPSHOT.(profile := profile, state := Down, checkedAt := t.failedAt);
    } else {
      cur := cur.(state := DecideHealth(prev, cur, k.hostIP, k.freshness));
    }
  }

  class ProfileLoop {
    const rules: Rules
    const profile: string
    var prev: Snapshot
    var lastReported: State

    ghost function View(): Loop reads this { Loop(prev, lastReported) }

    constructor (rules: Rules, profile: string)
      ensures this.rules == rules && this.profile == profile && View() == FRESH_LOOP
    {
      this.rules, this.profile := rules, profile;
      prev, lastReported := ZERO_SNAPSHOT, Unknown;
    }

    /** One tick. `attempt` is the event it tries to publish, if any: the last reported state moves
        on whether or not publishing succeeds. */
    method Tick(t: Tick) returns (cur: Snapshot, attempt: Option<State>)
      modifies this
      ensures cur == Poll(rules, profile, old(prev), t)
      ensures attempt == if cur.state != old(lastReported) then Some(cur.state) else None
      ensures View() == Advance(old(View()), cur)
    {
      cur := PollOnce(rules, profile, prev, t);
      attempt := None;
      if cur.state != lastReported {
        attempt := Some(cur.state);
        lastReported := cur.state;
      }
      if cur.state == Up || cur.tx > 0 || cur.lastHandshake != ZERO_TIME {
        prev := cur;
      }
    }

    /** The endless loop, over the ticks it has made so far. */
    method Run(ticks: seq<Tick>) returns (polled: seq<Snapshot>, attempted: seq<State>, delivered: seq<State>)
      requires View() == FRESH_LOOP
      modifies this
      ensures polled == Polled(rules, profile, ticks)
      ensures View() == After(rules, profile, ticks)
      ensures attempted == Changes(States(polled))
      ensures Delivery(ticks, attempted, delivered)
    {
      polled, attempted, delivered := [], [], [];
      for i := 0 to |ticks|
        invariant polled == Polled(rules, profile, ticks[..i])
        invariant View() == After(rules, profile, ticks[..i])
        invariant attempted == Changes(States(polled))
        invariant Delivery(ticks[..i], attempted, delivered)
      {
        RunGrows(rules, profile, ticks, i);
        var cur, attempt := Tick(ticks[i]);
        ChangesGrow(polled, cur);
        polled := polled + [cur];
        DeliveryGrows(ticks, i, attempted, delivered, attempt);
        if attempt.Some? {
          attempted := attempted + [attempt.value];
          if ticks[i].publishes { delivered := delivered + [attempt.value]; }
        }
      }
      assert ticks[..|ticks|] == ticks;
    }
  }

  // ---------------------------------------------------------------- histories

  function After(k: Rules, profile: string, ticks: seq<Tick>): Loop {
    if ticks == [] then FRESH_LOOP
    else
      var l := After(k, profile, Front(ticks));
      Advance(l, Poll(k, profile, l.prev, Last(ticks)))
  }

  /** The snapshot of each tick of a run. */
  function Polled(k: Rules, profile: string, ticks: seq<Tick>): (r: seq<Snapshot>)
    ensures |r| == |ticks|
  {
    if ticks == [] then []
    else
      Polled(k, profile, Front(ticks)) + [Poll(k, profile, After(k, profile, Front(ticks)).prev, Last(ticks))]
  }

  function States(snaps: seq<Snapshot>): (r: seq<State>)
    ensures |r| == |snaps| && forall i :: 0 <= i < |r| ==> r[i] == snaps[i].state
  {
    seq(|snaps|, i requires 0 <= i < |snaps| => snaps[i].state)
  }

  // ---------------------------------------------------------------- the event log

  /** The state before position `i`: unknown before the first tick. */
  function Before(states: seq<State>, i: nat): State requires i <= |states| {
    if i == 0 then Unknown else states[i - 1]
  }

  /** The state changes of a status sequence that starts from unknown. */
  function Changes(states: seq<State>): seq<State> {
    if states == [] then []
    else
      var n := |states| - 1;
      Changes(Front(states)) + (if states[n] != Before(states, n) then [states[n]] else [])
  }

  predicate Subsequence<T(==)>(a: seq<T>, b: seq<T>) {
    if a == [] then true
    else if b == [] then false
    else if Last(a) == Last(b) && Subsequence(Front(a), Front(b)) then true
    else Subsequence(a, Front(b))
  }

  lemma SubsequenceExtends<T>(a: seq<T>, b: seq<T>, x: T)
    requires Subsequence(a, b)
    ensures Subsequence(a, b + [x]) && Subsequence(a + [x], b + [x])
  {
    assert Front(b + [x]) == b && Front(a + [x]) == a;
  }

  /** Events are delivered in order; some may be lost, but none if every publish succeeds. */
  ghost predicate Delivery(ticks: seq<Tick>, attempted: seq<State>, delivered: seq<State>) {
    && Subsequence(delivered, attempted)
    && ((forall t :: t in ticks ==> t.publishes) ==> delivered == attempted)
  }

  lemma DeliveryGrows(ticks: seq<Tick>, i: nat, attempted: seq<State>, delivered: seq<State>, attempt: Option<State>)
    requires i < |ticks| && Delivery(ticks[..i], attempted, delivered)
    ensures attempt.None? ==> Delivery(ticks[..i + 1], attempted, delivered)
    ensures attempt.Some? ==>
              Delivery(ticks[..i + 1], attempted + [attempt.value],
                       if ticks[i].publishes then delivered + [attempt.value] else delivered)
  {
    assert ticks[..i + 1] == ticks[..i] + [ticks[i]];
    if attempt.Some? { SubsequenceExtends(delivered, attempted, attempt.value); }
  }

  lemma {:induction false} LastReportedIsLastState(k: Rules, profile: string, ticks: seq<Tick>)
    ensures After(k, profile, ticks).lastReported
         == Before(States(Polled(k, profile, ticks)), |ticks|)
  {
    if ticks != [] { LastReportedIsLastState(k, profile, Front(ticks)); }
  }

  lemma RunGrows(k: Rules, profile: string, ticks: seq<Tick>, i: nat)
    requires i < |ticks|
    ensures var l := After(k, profile, ticks[..i]);
            var cur := Poll(k, profile, l.prev, ticks[i]);
            && Polled(k, profile, ticks[..i + 1]) == Polled(k, profile, ticks[..i]) + [cur]
            && After(k, profile, ticks[..i + 1]) == Advance(l, cur)
            && l.lastReported == Before(States(Polled(k, profile, ticks[..i])), i)
  {
    assert Front(ticks[..i + 1]) == ticks[..i] && Last(ticks[..i + 1]) == ticks[i];
    LastReportedIsLastState(k, profile, ticks[..i]);
  }

  lemma ChangesGrow(snaps: seq<Snapshot>, cur: Snapshot)
    ensures Changes(States(snaps + [cur]))
         == Changes(States(snaps)) + if cur.state != Before(States(snaps), |snaps|) then [cur.state] else []
  {
    assert Front(States(snaps + [cur])) == States(snaps);
  }

  lemma {:induction false} ChangesEndInLastState(states: seq<State>)
    ensures Before(Changes(states), |Changes(states)|) == Before(states, |states|)
  {
    if states != [] { ChangesEndInLastState(Front(states)); }
  }

  lemma {:induction false} ChangesDiffer(states: seq<State>)
    ensures forall i :: 0 <= i < |Changes(states)| ==> Changes(states)[i] != Before(Changes(states), i)
  {
    if states != [] {
      ChangesDiffer(Front(states));
      ChangesEndInLastState(Front(states));
    }
  }

  /** The event log is the destuttered status sequence: no two neighbours agree, it starts with a
      change from unknown, and it ends in the last computed state. */
  lemma EventLogIsDestuttering(k: Rules, profile: string, ticks: seq<Tick>)
    requires ticks != []
    ensures var log := Changes(States(Polled(k, profile, ticks)));
            && log != []
            && log[0] != Unknown
            && (forall i :: 0 < i < |log| ==> log[i] != log[i - 1])
            && Last(log) == Last(Polled(k, profile, ticks)).state
  {
    var states := States(Polled(k, profile, ticks));
    var log := Changes(states);
    ChangesDiffer(states);
    ChangesEndInLastState(states);
    assert Before(states, |states|) == Last(states) != Unknown;
    assert log != [];
    assert log[0] != Before(log, 0);
    forall i | 0 < i < |log| ensures log[i] != log[i - 1] { assert log[i] != Before(log, i); }
  }

  // ---------------------------------------------------------------- the tx baseline

  /** The last snapshot of the sequence that carried counters; the zero snapshot if none did. */
  function LatestReading(snaps: seq<Snapshot>): Snapshot {
    if snaps == [] then ZERO_SNAPSHOT
    else if Reading(Last(snaps)) then Last(snaps)
    else LatestReading(Front(snaps))
  }

  lemma {:induction false} LatestReadingIsSome(snaps: seq<Snapshot>) returns (i: nat)
    ensures i <= |snaps|
    ensures i < |snaps| ==> Reading(snaps[i]) && LatestReading(snaps) == snaps[i]
    ensures i == |snaps| ==> LatestReading(snaps) == ZERO_SNAPSHOT
  {
    if snaps == [] {
      i := 0;
    } else if Reading(Last(snaps)) {
      i := |snaps| - 1;
    } else {
      i := LatestReadingIsSome(Front(snaps));
      if i == |snaps| - 1 { i := |snaps|; }
    }
  }

  /** Since the last reading, some tick was up without counters, so by its probe alone. */
  predicate ProbedSinceReading(snaps: seq<Snapshot>) {
    snaps != [] && !Reading(Last(snaps)) && (Last(snaps).state == Up || ProbedSinceReading(Front(snaps)))
  }

  /** The baseline is the latest reading exactly as long as no tick since then was up by its probe alone:
      such a tick has no counters and erases the baseline. */
  lemma {:induction false} BaselineHoldsExactlyUntilProbe(k: Rules, profile: string, ticks: seq<Tick>)
    ensures var snaps := Polled(k, profile, ticks);
            var prev := After(k, profile, ticks).prev;
            && (prev == LatestReading(snaps) <==> !ProbedSinceReading(snaps))
            && (ProbedSinceReading(snaps) ==> prev.tx == 0 && prev.state == Up)
  {
    if ticks != [] {
      BaselineHoldsExactlyUntilProbe(k, profile, Front(ticks));
      assert Front(Polled(k, profile, ticks)) == Polled(k, profile, Front(ticks));
      var i := LatestReadingIsSome(Polled(k, profile, ticks));
    }
  }

  /** The next tick is up although the byte counters do not prove it, so by its probe. */
  predicate UpByProbe(k: Rules, profile: string, l: Loop, t: Tick) {
    var cur := Poll(k, profile, l.prev, t);
    cur.state == Up && !WgProofFresh(l.prev, cur, k.freshness)
  }

  /** The ticks of a run that only their probe made up. */
  function ProbeUps(k: Rules, profile: string, ticks: seq<Tick>): nat {
    if ticks == [] then 0
    else
      var before := Front(ticks);
      ProbeUps(k, profile, before) + if UpByProbe(k, profile, After(k, profile, before), Last(ticks)) then 1 else 0
  }

  lemma {:induction false} ProbeUpsSinceReading(k: Rules, profile: string, ticks: seq<Tick>)
    requires ProbeUps(k, profile, ticks) == 0
    ensures !ProbedSinceReading(Polled(k, profile, ticks))
  {
    if ticks != [] {
      ProbeUpsSinceReading(k, profile, Front(ticks));
      assert Front(Polled(k, profile, ticks)) == Polled(k, profile, Front(ticks));
    }
  }

  /** As long as no probe ever had to decide, the baseline is the latest reading. */
  lemma BaselineIsLatestReading(k: Rules, profile: string, ticks: seq<Tick>)
    requires ProbeUps(k, profile, ticks) == 0
    ensures After(k, profile, ticks).prev == LatestReading(Polled(k, profile, ticks))
  {
    ProbeUpsSinceReading(k, profile, ticks);
    BaselineHoldsExactlyUntilProbe(k, profile, ticks);
  }

  /** A tick that the byte counters prove up sent more bytes than the last reading before it, unless a tick
      in between was up by its probe alone. */
  lemma UpExceedsLatestReading(k: Rules, profile: string, ticks: seq<Tick>, i: nat)
    requires i < |ticks| && !ProbedSinceReading(Polled(k, profile, ticks)[..i])
    requires Polled(k, profile, ticks)[i].state == Up && !UpByProbe(k, profile, After(k, profile, ticks[..i]), ticks[i])
    ensures Polled(k, profile, ticks)[i].tx > LatestReading(Polled(k, profile, ticks)[..i]).tx
  {
    PolledPrefix(k, profile, ticks, i);
    PolledPrefix(k, profile, ticks, i + 1);
    RunGrows(k, profile, ticks, i);
    BaselineHoldsExactlyUntilProbe(k, profile, ticks[..i]);
    assert Polled(k, profile, ticks)[i] == Polled(k, profile, ticks)[..i + 1][i];
  }

  lemma {:induction false} PolledPrefix(k: Rules, profile: string, ticks: seq<Tick>, i: nat)
    requires i <= |ticks|
    ensures Polled(k, profile, ticks[..i]) == Polled(k, profile, ticks)[..i]
  {
    if i == |ticks| {
      assert ticks[..i] == ticks;
    } else {
      PolledPrefix(k, profile, Front(ticks), i);
      assert Front(ticks)[..i] == ticks[..i];
    }
  }

  /** Readings never decrease along the run; ticks without counters do not matter. */
  predicate NeverDecreases(snaps: seq<Snapshot>) {
    forall i, j :: 0 <= i < j < |snaps| && Reading(snaps[i]) && Reading(snaps[j]) ==> snaps[i].tx <= snaps[j].tx
  }

  function UpTicks(snaps: seq<Snapshot>): nat {
    if snaps == [] then 0 else UpTicks(Front(snaps)) + if Last(snaps).state == Up then 1 else 0
  }

  /** A tick up by its probe counts twice: it is up itself, and by erasing the baseline it lets the next
      reading be up without a new byte. */
  ghost predicate UpTicksPaid(k: Rules, profile: string, ticks: seq<Tick>) {
    var snaps := Polled(k, profile, ticks);
    UpTicks(snaps) + (if ProbedSinceReading(snaps) then 1 else 0)
      <= LatestReading(snaps).tx + 2 * ProbeUps(k, profile, ticks)
  }

  lemma {:induction false} EveryRunIsPaid(k: Rules, profile: string, ticks: seq<Tick>)
    requires NeverDecreases(Polled(k, profile, ticks))
    ensures UpTicksPaid(k, profile, ticks)
  {
    if ticks != [] {
      var snaps, front := Polled(k, profile, ticks), Polled(k, profile, Front(ticks));
      assert front == Front(snaps) && NeverDecreases(front);
      EveryRunIsPaid(k, profile, Front(ticks));
      BaselineHoldsExactlyUntilProbe(k, profile, Front(ticks));
      var i := LatestReadingIsSome(front);
      assert i < |front| ==> snaps[i] == front[i];
    }
  }

  /** Every up tick that the counters prove costs a byte. So in every run whose counter never goes back
      there are at most as many up ticks as bytes sent, plus two for each tick that only its probe made
      up. */
  lemma UpTicksAreBounded(k: Rules, profile: string, ticks: seq<Tick>)
    requires NeverDecreases(Polled(k, profile, ticks))
    ensures UpTicks(Polled(k, profile, ticks))
         <= LatestReading(Polled(k, profile, ticks)).tx + 2 * ProbeUps(k, profile, ticks)
  {
    EveryRunIsPaid(k, profile, ticks);
  }

  const ANY_HOST := Rules("", 10)
  const READING_TICK := Tick(10, 10, Reached("ip", Some(WgReading(1, 1, 5)), false), true)
  const PROBE_TICK := Tick(10, 10, Reached("ip", None, true), true)

  lemma FirstByteIsUp(prev: Snapshot) returns (cur: Snapshot)
    requires prev.tx == 0
    ensures cur == Poll(ANY_HOST, "p", prev, READING_TICK) && cur.state == Up && cur.tx == 1
  {
    cur := Poll(ANY_HOST, "p", prev, READING_TICK);
    assert Evidence(prev, cur, "", 10);
  }

  lemma ProbeIsUp(prev: Snapshot) returns (cur: Snapshot)
    ensures cur == Poll(ANY_HOST, "p", prev, PROBE_TICK) && cur.state == Up && cur.tx == 0 && !Reading(cur)
  {
    cur := Poll(ANY_HOST, "p", prev, PROBE_TICK);
    assert Evidence(prev, cur, "", 10);
  }

  /** The bound is reached, and without the term for probes it is false: readings 1, none, 1, and all
      three ticks up. */
  lemma ProbeBreaksTheBound() returns (k: Rules, ticks: seq<Tick>)
    ensures NeverDecreases(Polled(k, "p", ticks))
    ensures ProbeUps(k, "p", ticks) == 1
    ensures UpTicks(Polled(k, "p", ticks)) == LatestReading(Polled(k, "p", ticks)).tx + 2 * ProbeUps(k, "p", ticks)
  {
    k := ANY_HOST;
    var a := FirstByteIsUp(ZERO_SNAPSHOT);
    var b := ProbeIsUp(a);
    var c := FirstByteIsUp(b);
    ticks := [] + [READING_TICK] + [PROBE_TICK] + [READING_TICK];
    UpTickMore(k, [], [], ZERO_SNAPSHOT, READING_TICK, a);
    UpTickMore(k, [] + [READING_TICK], [] + [a], a, PROBE_TICK, b);
    UpTickMore(k, [] + [READING_TICK] + [PROBE_TICK], [] + [a] + [b], b, READING_TICK, c);
    assert Last([] + [a] + [b] + [c]) == c;
  }

  lemma UpTickMore(k: Rules, ticks: seq<Tick>, snaps: seq<Snapshot>, prev: Snapshot, t: Tick, cur: Snapshot)
    requires snaps == Polled(k, "p", ticks) && prev == After(k, "p", ticks).prev
    requires cur == Poll(k, "p", prev, t) && cur.state == Up
    ensures Polled(k, "p", ticks + [t]) == snaps + [cur] && After(k, "p", ticks + [t]).prev == cur
    ensures UpTicks(snaps + [cur]) == UpTicks(snaps) + 1
    ensures ProbeUps(k, "p", ticks + [t])
         == ProbeUps(k, "p", ticks) + if WgProofFresh(prev, cur, k.freshness) then 0 else 1
  {
    assert Front(ticks + [t]) == ticks && Front(snaps + [cur]) == snaps;
  }

  // ---------------------------------------------------------------- recovery after a counter reset

  /** A poll that brings no counters and no proof: the sample or the `wg` read failed. */
  predicate Blind(t: Tick) {
    t.seen.Unreachable? || (!t.seen.probed && (t.seen.wg.None? || t.seen.wg.value == WgReading(0, 0, ZERO_TIME)))
  }

  lemma {:induction false} BlindTicksKeepBaseline(k: Rules, profile: string, before: seq<Tick>, blind: seq<Tick>)
    requires forall t :: t in blind ==> Blind(t)
    ensures After(k, profile, before + blind).prev == After(k, profile, before).prev
  {
    if blind == [] {
      assert before + blind == before;
    } else {
      assert Front(before + blind) == before + Front(blind) && Last(before + blind) == Last(blind);
      assert Last(blind) in blind;
      BlindTicksKeepBaseline(k, profile, before, Front(blind));
    }
  }

  /** A tunnel restart resets its counters. The first reading afterwards is down and becomes the new
      baseline; any number of blind polls may follow; the next growing, fresh reading is up. */
  lemma CounterResetRecovers(
    k: Rules, profile: string, before: seq<Tick>, reset: Tick, blind: seq<Tick>, good: Tick)
    requires reset.seen.Reached? && reset.seen.wg.Some? && !reset.seen.probed
    requires 0 < reset.seen.wg.value.tx <= After(k, profile, before).prev.tx
    requires forall t :: t in blind ==> Blind(t)
    requires good.seen.Reached? && good.seen.wg.Some? && good.seen.wg.value.tx > reset.seen.wg.value.tx
    requires Recent(good.seen.wg.value.latest, good.stampedAt, k.freshness) && k.freshness > 0
    requires good.seen.egress != "" && (k.hostIP != "" ==> good.seen.egress != k.hostIP)
    ensures Last(Polled(k, profile, before + [reset])).state == Down
    ensures After(k, profile, before + [reset] + blind).prev.tx == reset.seen.wg.value.tx
    ensures Last(Polled(k, profile, before + [reset] + blind + [good])).state == Up
  {
    var rebased := before + [reset];
    assert Front(rebased) == before && Last(rebased) == reset;
    BlindTicksKeepBaseline(k, profile, rebased, blind);
    var all := rebased + blind + [good];
    assert Front(all) == rebased + blind && Last(all) == good;
    var cur := Poll(k, profile, After(k, profile, rebased + blind).prev, good);
    assert Evidence(After(k, profile, rebased + blind).prev, cur, k.hostIP, k.freshness);
  }
}
