/** The other half of safety: in runs where healthd does its part on time, the status of a tunnel that
    polls find up stays readable as up from its first write on. When exactly is what the time to live and
    the helper's freshness window decide. */
module Availability {
  import opened Text
  import opened Vpn
  import opened Healthd
  import opened Bus
  import opened Decide
  import opened Pipeline
  import opened Expiry
  import Faults

  /** Poller `p` serves `u`, and no other does. */
  predicate Serves(c: Config, p: nat, u: string) {
    p in c.profiles && c.profiles[p] == u && forall q :: q in c.profiles && q != p ==> c.profiles[q] != u
  }

  predicate Starts(p: nat, s: System, step: Step) { step == TickStarts(p) && PollerOf(s, p).phase.Idle? }

  /** When the next tick of `p` is due: one interval after each tick that has started. */
  function Due(c: Config, p: nat, first: Instant, steps: seq<Step>): Instant {
    if steps == [] then first
    else
      var before := Front(steps);
      Due(c, p, first, before)
      + if Starts(p, Exec(c, Start(first), before), Last(steps)) then c.interval else 0
  }

  /** The step keeps to the plan for `u`: ticks start when they are due and time does not pass a due tick,
      polls find the tunnel up, writes apply, and nothing happens to the poller or to its key. Everything
      else is free. */
  predicate Kept(c: Config, p: nat, u: string, due: Instant, s: System, step: Step) {
    var x := PollerOf(s, p);
    match step
    case Elapse(nanos) => s.now + nanos <= due
    case TickStarts(q) => q == p && x.phase.Idle? ==> s.now == due
    case PollEnds(q, seen) =>
      q == p && x.phase.Stamped? ==>
        Poll(c.rules, u, x.loop.prev, Tick(x.phase.stampedAt, s.now, seen, true)).state == Up
    case StatusWrite(q, applied) => q == p && x.phase.Decided? ==> applied
    case Crash(q) => q != p
    case LoseStatus(v) => v != u
    case GarbleStatus(v) => v != u
    case _ => true
  }

  /** A run from the moment of the first tick that keeps to the plan. */
  predicate OnPlan(c: Config, p: nat, u: string, first: Instant, steps: seq<Step>) {
    steps == [] ||
    (var before := Front(steps);
     && OnPlan(c, p, u, first, before)
     && Kept(c, p, u, Due(c, p, first, before), Exec(c, Start(first), before), Last(steps)))
  }

  predicate Writes(p: nat, s: System, step: Step) { step == StatusWrite(p, true) && PollerOf(s, p).phase.Decided? }

  /** The poller has written its status once. */
  predicate HasWritten(c: Config, p: nat, first: Instant, steps: seq<Step>) {
    steps != [] &&
    (var before := Front(steps);
     HasWritten(c, p, first, before) || Writes(p, Exec(c, Start(first), before), Last(steps)))
  }

  // ---------------------------------------------------------------- the invariant

  predicate InTick(x: Phase) { x.Started? || x.Stamped? || x.Decided? }

  /** The cell says up, of a poll since `from`, and lives as long as a write at `from` would. */
  predicate UpSince(c: Config, cell: Cell, from: Instant, now: Instant) {
    && cell.raw.Json? && cell.raw.value.state == Up
    && from <= cell.raw.value.checkedAt <= now
    && if Ttl(c.ttlSeconds) > 0 then cell.expiresAt.Some? && cell.expiresAt.value >= from + Ttl(c.ttlSeconds)
       else cell.expiresAt.None?
  }

  predicate PhaseKept(c: Config, u: string, due: Instant, now: Instant, x: Phase) {
    match x
    case Idle => true
    case Started(start) => start == due - c.interval <= now
    case Stamped(start, at) => start == due - c.interval <= at <= now
    case Decided(start, cur) =>
      start == due - c.interval <= cur.checkedAt <= now && cur.state == Up && cur.profile == u
    case Stored(_) => true
  }

  predicate PlanInv(c: Config, p: nat, u: string, due: Instant, s: System) {
    var x := PollerOf(s, p).phase;
    && s.now <= due
    && PhaseKept(c, u, due, s.now, x)
    && (u in s.statuses ==>
          UpSince(c, s.statuses[u], due - c.interval - (if InTick(x) then c.interval else 0), s.now))
  }

  lemma OwnStepKeepsPlan(c: Config, p: nat, u: string, due: Instant, s: System, step: Step)
    requires Serves(c, p, u) && c.interval > 0 && PlanInv(c, p, u, due, s) && Kept(c, p, u, due, s, step)
    requires step.TickStarts? || step.PollStamps? || step.PollEnds? || step.StatusWrite? || step.TickEnds?
    requires step.p == p
    ensures PlanInv(c, p, u, due + (if Starts(p, s, step) then c.interval else 0), ApplyPoller(c, s, step, p))
  {
  }

  lemma RequestKeepsPlan(c: Config, p: nat, u: string, due: Instant, s: System, step: Step, r: nat)
    requires PlanInv(c, p, u, due, s)
    ensures PlanInv(c, p, u, due, ApplyRequest(c, s, step, r))
  {
  }

  lemma RedisKeepsPlan(c: Config, p: nat, u: string, due: Instant, s: System, step: Step)
    requires PlanInv(c, p, u, due, s) && Kept(c, p, u, due, s, step)
    ensures PlanInv(c, p, u, due, ApplyRedis(s, step))
  {
  }

  lemma OtherPollerKeepsPlan(c: Config, p: nat, u: string, due: Instant, s: System, step: Step, q: nat)
    requires Serves(c, p, u) && PlanInv(c, p, u, due, s) && Inv(c, s) && q != p
    ensures PlanInv(c, p, u, due, ApplyPoller(c, s, step, q))
  {
    if q in c.profiles && q in s.pollers { assert PhaseOk(c, s, q, s.pollers[q].phase); }
  }

  lemma StepKeepsPlan(c: Config, p: nat, u: string, due: Instant, s: System, step: Step)
    requires Serves(c, p, u) && c.interval > 0 && Inv(c, s)
    requires PlanInv(c, p, u, due, s) && Kept(c, p, u, due, s, step)
    ensures PlanInv(c, p, u, due + (if Starts(p, s, step) then c.interval else 0), Apply(c, s, step))
  {
    if step.TickStarts? || step.PollStamps? || step.PollEnds? || step.StatusWrite? || step.TickEnds? {
      if step.p == p { OwnStepKeepsPlan(c, p, u, due, s, step); }
      else { OtherPollerKeepsPlan(c, p, u, due, s, step, step.p); }
    } else if step.Crash? {
      OtherPollerKeepsPlan(c, p, u, due, s, step, step.p);
    } else if step.Ask? || step.ReadRoute? || step.ReadStatus? {
      RequestKeepsPlan(c, p, u, due, s, step, step.r);
    } else if !step.Elapse? {
      RedisKeepsPlan(c, p, u, due, s, step);
    }
  }

  /** Nothing on plan takes the key away, and the poller's write is in time and puts it there. */
  lemma StepKeepsKey(c: Config, p: nat, u: string, due: Instant, s: System, step: Step)
    requires Serves(c, p, u) && PlanInv(c, p, u, due, s) && Kept(c, p, u, due, s, step)
    requires u in s.statuses || Writes(p, s, step)
    ensures u in Apply(c, s, step).statuses
  {
    if Writes(p, s, step) { assert s.now <= PollerOf(s, p).phase.start + c.interval; }
  }

  lemma {:induction false} PlanKeepsInv(c: Config, p: nat, u: string, first: Instant, steps: seq<Step>)
    requires Serves(c, p, u) && c.interval > 0 && OnPlan(c, p, u, first, steps)
    ensures PlanInv(c, p, u, Due(c, p, first, steps), Exec(c, Start(first), steps))
    ensures HasWritten(c, p, first, steps) ==> u in Exec(c, Start(first), steps).statuses
  {
    if steps != [] {
      var s, due := Exec(c, Start(first), Front(steps)), Due(c, p, first, Front(steps));
      PlanKeepsInv(c, p, u, first, Front(steps));
      RunKeepsInv(c, Start(first), Front(steps));
      StepKeepsPlan(c, p, u, due, s, Last(steps));
      if HasWritten(c, p, first, steps) { StepKeepsKey(c, p, u, due, s, Last(steps)); }
    }
  }

  // ---------------------------------------------------------------- when it stays up

  /** The key outlives the gap between two writes, and the helper's window, if any, outlasts it. */
  predicate LongEnough(c: Config) {
    && (Ttl(c.ttlSeconds) <= 0 || Ttl(c.ttlSeconds) >= 2 * c.interval)
    && (c.maxAge <= 0 || c.maxAge >= 2 * c.interval || c.maxAge == MAX_DURATION)
  }

  lemma UpWhenLongEnough(c: Config, p: nat, u: string, first: Instant, steps: seq<Step>)
    requires Serves(c, p, u) && c.interval > 0 && LongEnough(c)
    requires OnPlan(c, p, u, first, steps) && HasWritten(c, p, first, steps)
    ensures Faults.ReadsUp(c, Exec(c, Start(first), steps), u)
  {
    PlanKeepsInv(c, p, u, first, steps);
  }

  lemma OneMore(c: Config, p: nat, u: string, first: Instant, steps: seq<Step>, s: System, due: Instant, step: Step)
    requires OnPlan(c, p, u, first, steps) && s == Exec(c, Start(first), steps) && due == Due(c, p, first, steps)
    requires Kept(c, p, u, due, s, step)
    ensures OnPlan(c, p, u, first, steps + [step]) && Exec(c, Start(first), steps + [step]) == Apply(c, s, step)
    ensures Due(c, p, first, steps + [step]) == due + if Starts(p, s, step) then c.interval else 0
    ensures HasWritten(c, p, first, steps + [step]) <==> HasWritten(c, p, first, steps) || Writes(p, s, step)
  {
    assert Front(steps + [step]) == steps && Last(steps + [step]) == step;
  }

  /** The first tick: started, polled and written at once. */
  lemma FastTick(c: Config, p: nat, u: string) returns (steps: seq<Step>, s: System, cur: Snapshot)
    requires Serves(c, p, u) && c.interval > 0 && c.rules.freshness > 0
    ensures OnPlan(c, p, u, 1, steps) && s == Exec(c, Start(1), steps) && Due(c, p, 1, steps) == 1 + c.interval
    ensures s.now == 1 && PollerOf(s, p).phase.Idle? && cur.checkedAt == 1
    ensures HasWritten(c, p, 1, steps) && u in s.statuses && s.statuses[u].raw == Json(cur)
    ensures s.statuses[u].expiresAt == if Ttl(c.ttlSeconds) > 0 then Some(1 + Ttl(c.ttlSeconds)) else None
  {
    var seen, now := UpObservation(c.rules, u);
    cur := now;
    var before, s2 := StartTick(c, p, u);
    steps, s := FinishTick(c, p, u, before, s2, 1 + c.interval, seen, cur);
  }

  lemma UpObservation(k: Rules, u: string) returns (seen: Observation, cur: Snapshot)
    requires k.freshness > 0
    ensures cur == Poll(k, u, ZERO_SNAPSHOT, Tick(1, 1, seen, true))
    ensures cur.state == Up && cur.checkedAt == 1 && cur.profile == u
  {
    seen := Reached(k.hostIP + "x", None, true);
    cur := Poll(k, u, ZERO_SNAPSHOT, Tick(1, 1, seen, true));
    assert |k.hostIP + "x"| != |k.hostIP|;
    assert Evidence(ZERO_SNAPSHOT, cur, k.hostIP, k.freshness);
  }

  lemma StartTick(c: Config, p: nat, u: string) returns (steps: seq<Step>, s: System)
    requires Serves(c, p, u) && c.interval > 0
    ensures OnPlan(c, p, u, 1, steps) && s == Exec(c, Start(1), steps) && Due(c, p, 1, steps) == 1 + c.interval
    ensures s == Start(1).(pollers := map[p := Poller(FRESH_LOOP, Stamped(1, 1))])
  {
    var none: seq<Step> := [];
    var s0, a, b := Start(1), TickStarts(p), PollStamps(p);
    OneMore(c, p, u, 1, none, s0, 1, a);
    var s1 := s0.(pollers := map[p := Poller(FRESH_LOOP, Started(1))]);
    assert Apply(c, s0, a) == s1;
    OneMore(c, p, u, 1, none + [a], s1, 1 + c.interval, b);
    steps, s := none + [a] + [b], Apply(c, s1, b);
  }

  lemma FinishTick(
    c: Config, p: nat, u: string, before: seq<Step>, s2: System, due: Instant, seen: Observation, cur: Snapshot)
    returns (steps: seq<Step>, s: System)
    requires Serves(c, p, u) && c.interval > 0 && due == 1 + c.interval
    requires OnPlan(c, p, u, 1, before) && s2 == Exec(c, Start(1), before) && due == Due(c, p, 1, before)
    requires s2 == Start(1).(pollers := map[p := Poller(FRESH_LOOP, Stamped(1, 1))])
    requires cur == Poll(c.rules, u, ZERO_SNAPSHOT, Tick(1, 1, seen, true)) && cur.state == Up
    ensures OnPlan(c, p, u, 1, steps) && s == Exec(c, Start(1), steps) && Due(c, p, 1, steps) == due
    ensures s.now == 1 && PollerOf(s, p).phase.Idle? && s.statuses == PutStatus(map[], cur, c.ttlSeconds, 1)
    ensures HasWritten(c, p, 1, steps)
  {
    var a, b, d := PollEnds(p, seen), StatusWrite(p, true), TickEnds(p);
    OneMore(c, p, u, 1, before, s2, due, a);
    var s3 := Apply(c, s2, a);
    assert s3.pollers[p] == Poller(FRESH_LOOP, Decided(1, cur)) && s3.now == 1 && s3.statuses == map[];
    OneMore(c, p, u, 1, before + [a], s3, due, b);
    var s4 := Apply(c, s3, b);
    assert s4.pollers[p] == Poller(FRESH_LOOP, Stored(cur)) && s4.now == 1;
    OneMore(c, p, u, 1, before + [a] + [b], s4, due, d);
    steps, s := before + [a] + [b] + [d], Apply(c, s4, d);
  }

  /** Then the next tick takes its whole interval, so two intervals pass without a write. */
  lemma SlowTick(c: Config, p: nat, u: string, before: seq<Step>, s0: System) returns (steps: seq<Step>, s: System)
    requires Serves(c, p, u) && c.interval > 0 && PollerOf(s0, p).phase.Idle? && s0.now == 1
    requires OnPlan(c, p, u, 1, before) && s0 == Exec(c, Start(1), before) && Due(c, p, 1, before) == 1 + c.interval
    requires HasWritten(c, p, 1, before)
    ensures OnPlan(c, p, u, 1, steps) && s == Exec(c, Start(1), steps) && HasWritten(c, p, 1, steps)
    ensures s.now == 1 + 2 * c.interval && s.statuses == s0.statuses
  {
    var wait, tick := Elapse(c.interval), TickStarts(p);
    var due := 1 + c.interval;
    OneMore(c, p, u, 1, before, s0, due, wait);
    var s1 := s0.(now := due);
    assert PollerOf(s1, p) == PollerOf(s0, p);
    OneMore(c, p, u, 1, before + [wait], s1, due, tick);
    var s2 := Apply(c, s1, tick);
    OneMore(c, p, u, 1, before + [wait] + [tick], s2, due + c.interval, wait);
    steps, s := before + [wait] + [tick] + [wait], Apply(c, s2, wait);
  }

  /** Every run on plan reads up, from the poller's first write on. */
  ghost predicate StaysUp(c: Config, p: nat, u: string) {
    forall first: Instant, steps: seq<Step> ::
      OnPlan(c, p, u, first, steps) && HasWritten(c, p, first, steps) ==>
        Faults.ReadsUp(c, Exec(c, Start(first), steps), u)
  }

  /** The status reads up in every run on plan exactly when both the time to live and the helper's window,
      where there is one, span two intervals. */
  lemma StaysUpExactly(c: Config, p: nat, u: string)
    requires Serves(c, p, u) && c.interval > 0 && c.rules.freshness > 0
    ensures StaysUp(c, p, u) <==> LongEnough(c)
  {
    if LongEnough(c) {
      forall first: Instant, steps: seq<Step>
        | OnPlan(c, p, u, first, steps) && HasWritten(c, p, first, steps)
        ensures Faults.ReadsUp(c, Exec(c, Start(first), steps), u)
      {
        UpWhenLongEnough(c, p, u, first, steps);
      }
    } else {
      var before, s0, cur := FastTick(c, p, u);
      var steps, s := SlowTick(c, p, u, before, s0);
      assert !Faults.ReadsUp(c, s, u);
    }
  }

  /** With the default time to live: exactly when the interval is in neither range of
      `DefaultTtlBridgesExactly` and the helper's window, if any, spans two intervals. */
  lemma DefaultStaysUpExactly(c: Config, p: nat, u: string)
    requires Serves(c, p, u) && c.interval > 0 && c.rules.freshness > 0
    requires c.ttlSeconds == TtlSeconds(c.interval, None)
    ensures StaysUp(c, p, u)
       <==> && (2 * c.interval <= SECOND || 3 * c.interval >= 2 * SECOND) && !WrapsAround(c.interval)
            && (c.maxAge <= 0 || c.maxAge >= 2 * c.interval || c.maxAge == MAX_DURATION)
  {
    StaysUpExactly(c, p, u);
    DefaultTtlBounds(c.interval);
  }

  /** And then every host routed to the tunnel is allowed with its tag. */
  lemma RoutedHostIsAllowed(c: Config, p: nat, u: string, first: Instant, steps: seq<Step>, host: string)
    requires Serves(c, p, u) && c.interval > 0 && LongEnough(c) && host != "" && u != ""
    requires OnPlan(c, p, u, first, steps) && HasWritten(c, p, first, steps)
    requires var s := Exec(c, Start(first), steps);
             host in s.routes && s.routes[host].Json? && s.routes[host].value.tunnel == u
    ensures var s := Exec(c, Start(first), steps);
            VerdictFor(host, s.routes, s.statuses, s.now, c.maxAge) == Allow(u)
  {
    UpWhenLongEnough(c, p, u, first, steps);
  }
}
