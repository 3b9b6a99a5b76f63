/** What faults can do to the pipeline: compare a run with the same run without read faults, lost
    keys and undecodable bytes, and bound how long a lost write can matter. */
module Faults {
  import opened Text
  import opened Vpn
  import opened Healthd
  import opened Bus
  import opened Decide
  import opened Pipeline

  /** The step with its fault removed. Lost writes stay lost. */
  function Cleansed(step: Step): Step {
    match step
    case ReadRoute(r, _) => ReadRoute(r, false)
    case ReadStatus(r, _) => ReadStatus(r, false)
    case LoseStatus(_) => Elapse(0)
    case GarbleStatus(_) => Elapse(0)
    case LoseRoute(_) => Elapse(0)
    case GarbleRoute(_) => Elapse(0)
    case _ => step
  }

  function CleansedRun(steps: seq<Step>): (r: seq<Step>)
    ensures |r| == |steps|
  {
    if steps == [] then [] else CleansedRun(Front(steps)) + [Cleansed(Last(steps))]
  }

  /** Request `a` of the faulty run against `b` of the clean one: where the faulty run has not refused,
      they agree; a refusal may face anything for the same host. */
  predicate NoMoreAllowed(a: Request, b: Request) {
    if a.Answered? && a.verdict.Refuse? then a.host == b.host else a == b
  }

  /** Whatever the faulty run can still decode, the clean run holds unchanged. */
  predicate StatusesBelow(a: Statuses, b: Statuses) {
    forall u :: u in a && a[u].raw.Json? ==> u in b && b[u] == a[u]
  }

  predicate RoutesBelow(a: Routes, b: Routes) {
    forall h :: h in a && a[h].Json? ==> h in b && b[h] == a[h]
  }

  predicate RequestsBelow(a: map<nat, Request>, b: map<nat, Request>) {
    a.Keys == b.Keys && forall r :: r in a ==> NoMoreAllowed(a[r], b[r])
  }

  predicate Below(a: System, b: System) {
    && a.now == b.now && a.pollers == b.pollers && a.records == b.records && a.seeds == b.seeds
    && StatusesBelow(a.statuses, b.statuses)
    && RoutesBelow(a.routes, b.routes)
    && RequestsBelow(a.requests, b.requests)
  }

  lemma PollerStepKeepsBelow(c: Config, a: System, b: System, step: Step, p: nat)
    requires Below(a, b)
    ensures Below(ApplyPoller(c, a, step, p), ApplyPoller(c, b, step, p))
  {
    if p in c.profiles {
      assert PollerOf(a, p) == PollerOf(b, p);
      var m := PollerMove(c, c.profiles[p], a.now, PollerOf(a, p), step);
      if m.put.Some? { PutKeepsBelow(a.statuses, b.statuses, m.put.value, c.ttlSeconds, a.now); }
    }
  }

  lemma PutKeepsBelow(a: Statuses, b: Statuses, snap: Snapshot, ttlSeconds: int, now: Instant)
    requires StatusesBelow(a, b)
    ensures StatusesBelow(PutStatus(a, snap, ttlSeconds, now), PutStatus(b, snap, ttlSeconds, now))
  {
  }

  /** A faulty route read that finds a tunnel finds the one the clean read finds. */
  lemma RouteReadBelow(a: Routes, b: Routes, host: string, fault: bool)
    requires RoutesBelow(a, b)
    ensures var tunnel := AfterRoute(host, FetchRoute(a, host, fault));
            tunnel.Some? ==> AfterRoute(host, FetchRoute(b, host, false)) == tunnel
  {
  }

  lemma StatusReadBelow(a: Statuses, b: Statuses, u: string, now: Instant, maxAge: Duration, fault: bool)
    requires StatusesBelow(a, b)
    ensures AfterStatus(u, FetchStatus(a, u, now, maxAge, fault), fault).Allow?
        ==> AfterStatus(u, FetchStatus(b, u, now, maxAge, false), false) == Allow(u)
  {
  }

  lemma RequestMoveBelow(c: Config, a: System, b: System, x: Request, y: Request, step: Step)
    requires Below(a, b) && NoMoreAllowed(x, y)
    ensures NoMoreAllowed(RequestMove(c, a, x, step), RequestMove(c, b, y, Cleansed(step)))
  {
    if step.ReadRoute? && x.Asked? {
      RouteReadBelow(a.routes, b.routes, x.host, step.fault);
    } else if step.ReadStatus? && x.Routed? {
      StatusReadBelow(a.statuses, b.statuses, x.tunnel, a.now, c.maxAge, step.fault);
    }
  }

  lemma RequestStepKeepsBelow(c: Config, a: System, b: System, step: Step, r: nat)
    requires Below(a, b)
    requires step.Ask? || step.ReadRoute? || step.ReadStatus?
    ensures Below(ApplyRequest(c, a, step, r), ApplyRequest(c, b, Cleansed(step), r))
  {
    if r in a.requests {
      RequestMoveBelow(c, a, b, a.requests[r], b.requests[r], step);
    }
  }

  /** A fault hits the faulty run only; seeding hits both. */
  lemma RedisStepKeepsBelow(c: Config, a: System, b: System, step: Step)
    requires Below(a, b)
    requires step.Seed? || step.LoseStatus? || step.GarbleStatus? || step.LoseRoute? || step.GarbleRoute?
    ensures Below(ApplyRedis(a, step), Apply(c, b, Cleansed(step)))
  {
  }

  lemma StepKeepsBelow(c: Config, a: System, b: System, step: Step)
    requires Below(a, b)
    ensures Below(Apply(c, a, step), Apply(c, b, Cleansed(step)))
  {
    match step
    case Elapse(_) =>
    case TickStarts(p) => PollerStepKeepsBelow(c, a, b, step, p);
    case PollStamps(p) => PollerStepKeepsBelow(c, a, b, step, p);
    case PollEnds(p, _) => PollerStepKeepsBelow(c, a, b, step, p);
    case StatusWrite(p, _) => PollerStepKeepsBelow(c, a, b, step, p);
    case TickEnds(p) => PollerStepKeepsBelow(c, a, b, step, p);
    case Crash(p) => PollerStepKeepsBelow(c, a, b, step, p);
    case Ask(r, _) => RequestStepKeepsBelow(c, a, b, step, r);
    case ReadRoute(r, _) => RequestStepKeepsBelow(c, a, b, step, r);
    case ReadStatus(r, _) => RequestStepKeepsBelow(c, a, b, step, r);
    case _ => RedisStepKeepsBelow(c, a, b, step);
  }

  lemma {:induction false} RunKeepsBelow(c: Config, s: System, steps: seq<Step>)
    ensures Below(Exec(c, s, steps), Exec(c, s, CleansedRun(steps)))
  {
    if steps != [] {
      RunKeepsBelow(c, s, Front(steps));
      assert Front(CleansedRun(steps)) == CleansedRun(Front(steps));
      StepKeepsBelow(c, Exec(c, s, Front(steps)), Exec(c, s, CleansedRun(Front(steps))), Last(steps));
    }
  }

  /** Read faults, lost keys and garbled bytes, anywhere in any run, can only turn an `OK` into an
      `ERR`: a request that is allowed with them gets the same tag at the same time without them. */
  lemma FaultsOnlyRefuse(c: Config, s: System, steps: seq<Step>, r: nat)
    requires r in Exec(c, s, steps).requests
    ensures var faulty := Exec(c, s, steps).requests[r];
            var clean := Exec(c, s, CleansedRun(steps)).requests;
            && r in clean
            && clean[r].host == faulty.host
            && (faulty.Answered? && faulty.verdict.Allow? ==> clean[r] == faulty)
  {
    RunKeepsBelow(c, s, steps);
    assert NoMoreAllowed(Exec(c, s, steps).requests[r], Exec(c, s, CleansedRun(steps)).requests[r]);
  }

  // ---------------------------------------------------------------- lost writes

  /** No write of `u` takes effect along these steps: all are lost, late or absent. */
  ghost predicate NothingStored(c: Config, s: System, steps: seq<Step>, u: string) {
    forall i :: 0 <= i < |steps| ==> !StoresStatus(c, Exec(c, s, steps[..i]), steps[i], u)
  }

  ghost predicate StoresStatus(c: Config, s: System, step: Step, u: string) {
    && step.StatusWrite? && step.applied && step.p in c.profiles
    && var x := PollerOf(s, step.p).phase;
       x.Decided? && s.now <= x.start + c.interval && x.cur.profile == u
  }

  predicate ReadsUp(c: Config, s: System, u: string) {
    FetchStatus(s.statuses, u, s.now, c.maxAge, false).state == Up
  }

  lemma StepKeepsOldCell(c: Config, s: System, step: Step, u: string)
    requires !StoresStatus(c, s, step, u)
    requires u in Apply(c, s, step).statuses
    ensures u in s.statuses
    ensures s.now <= Apply(c, s, step).now
    ensures Apply(c, s, step).statuses[u] == s.statuses[u] || Apply(c, s, step).statuses[u].raw.Garbled?
  {
  }

  lemma {:induction false} RunKeepsOldCell(c: Config, s: System, steps: seq<Step>, u: string)
    requires NothingStored(c, s, steps, u)
    requires u in Exec(c, s, steps).statuses
    ensures u in s.statuses
    ensures Exec(c, s, steps).statuses[u] == s.statuses[u] || Exec(c, s, steps).statuses[u].raw.Garbled?
  {
    if steps != [] {
      var n := |steps| - 1;
      assert steps[..n] == Front(steps);
      forall i | 0 <= i < n ensures !StoresStatus(c, Exec(c, s, Front(steps)[..i]), Front(steps)[i], u) {
        assert Front(steps)[..i] == steps[..i];
      }
      StepKeepsOldCell(c, Exec(c, s, Front(steps)), Last(steps), u);
      RunKeepsOldCell(c, s, Front(steps), u);
    }
  }

  /** A lost DOWN write leaves the older UP in place, but not for longer than that key was given: as
      long as nothing new is stored for `u`, a read that still says up is of the old key and happens
      before its own expiry. */
  lemma OldUpDiesWithItsKey(c: Config, s: System, steps: seq<Step>, u: string)
    requires NothingStored(c, s, steps, u)
    requires ReadsUp(c, Exec(c, s, steps), u)
    ensures u in s.statuses && s.statuses[u].raw.Json? && s.statuses[u].raw.value.state == Up
    ensures s.statuses[u].expiresAt.Some? ==> Exec(c, s, steps).now <= s.statuses[u].expiresAt.value
  {
    RunKeepsOldCell(c, s, steps, u);
  }

  // ---------------------------------------------------------------- the bound is reached

  lemma ExecFive(c: Config, s: System, a: Step, b: Step, d: Step, e: Step, f: Step)
    ensures Exec(c, s, [a, b, d, e, f]) == Apply(c, Apply(c, Apply(c, Apply(c, Apply(c, s, a), b), d), e), f)
  {
    assert Front([a]) == [] && Front([a, b]) == [a] && Front([a, b, d]) == [a, b];
    assert Front([a, b, d, e]) == [a, b, d] && Front([a, b, d, e, f]) == [a, b, d, e];
    assert Exec(c, s, [a]) == Apply(c, s, a);
    assert Exec(c, s, [a, b]) == Apply(c, Apply(c, s, a), b);
    assert Exec(c, s, [a, b, d]) == Apply(c, Apply(c, Apply(c, s, a), b), d);
  }

  lemma {:induction false} ExecConcat(c: Config, s: System, a: seq<Step>, b: seq<Step>)
    ensures Exec(c, s, a + b) == Exec(c, Exec(c, s, a), b)
  {
    if b == [] {
      assert a + b == a;
    } else {
      assert Front(a + b) == a + Front(b);
      ExecConcat(c, s, a, Front(b));
    }
  }

  /** A configuration whose status keys expire, with one poller, for the worst case below. */
  predicate OnePoller(c: Config, u: string) {
    && c.profiles == map[0 := u] && u != ""
    && Ttl(c.ttlSeconds) > 0 && c.interval > 0 && c.rules.freshness > 0 && c.maxAge <= 0
    && c.rules.hostIP != "ip"
  }

  /** The poll takes its whole interval, so its snapshot is that old when it is stored. */
  lemma SlowPoll(c: Config, now: Instant, u: string) returns (steps: seq<Step>, s: System, cur: Snapshot)
    requires OnePoller(c, u) && now != ZERO_TIME
    ensures s == Exec(c, Start(now), steps)
    ensures cur.state == Up && cur.checkedAt == now
    ensures s.now == now + c.interval && s.requests == map[] && s.records == [Record(u, ZERO_SNAPSHOT, cur)]
    ensures s.statuses == map[u := Cell(Json(cur), Some(s.now + Ttl(c.ttlSeconds)))]
  {
    var seen := Reached("ip", None, true);
    cur := Poll(c.rules, u, ZERO_SNAPSHOT, Tick(now, now + c.interval, seen, true));
    assert Evidence(ZERO_SNAPSHOT, cur, c.rules.hostIP, c.rules.freshness);
    steps := [TickStarts(0), PollStamps(0), Elapse(c.interval), PollEnds(0, seen), StatusWrite(0, true)];
    ExecFive(c, Start(now), steps[0], steps[1], steps[2], steps[3], steps[4]);
    var s0 := Start(now);
    var s2 := Apply(c, Apply(c, s0, steps[0]), steps[1]);
    assert s2 == s0.(pollers := map[0 := Poller(FRESH_LOOP, Stamped(now, now))]);
    var s4 := Apply(c, Apply(c, s2, steps[2]), steps[3]);
    assert s4.pollers == map[0 := Poller(FRESH_LOOP, Decided(now, cur))];
    s := Apply(c, s4, steps[4]);
  }

  /** The request reads the status at the last instant of the key's life. */
  lemma LateRead(c: Config, s: System, u: string, cur: Snapshot) returns (steps: seq<Step>, s': System)
    requires OnePoller(c, u) && s.requests == map[] && cur.state == Up
    requires s.statuses == map[u := Cell(Json(cur), Some(s.now + Ttl(c.ttlSeconds)))]
    ensures s' == Exec(c, s, steps) && s'.records == s.records
    ensures s'.requests == map[0 := Answered("h", |s.seeds| + 1, Allow(u), s.now + Ttl(c.ttlSeconds))]
  {
    steps := [Seed(Route("h", u, 0, "closed")), Ask(0, "h"), ReadRoute(0, false),
              Elapse(Ttl(c.ttlSeconds)), ReadStatus(0, false)];
    ExecFive(c, s, steps[0], steps[1], steps[2], steps[3], steps[4]);
    var s2 := Apply(c, Apply(c, s, steps[0]), steps[1]);
    assert s2.requests == map[0 := Asked("h", |s.seeds| + 1)] && s2.routes["h"] == Json(Route("h", u, 0, "closed"));
    RouteIsFound(c, s2, |s.seeds| + 1, u);
    var s3 := Apply(c, s2, steps[2]);
    var s4 := s3.(now := s.now + Ttl(c.ttlSeconds));
    assert s4 == Apply(c, s3, steps[3]) && s4.statuses == s.statuses;
    UpAtTheLastInstant(c, s4, |s.seeds| + 1, u, cur);
    s' := Apply(c, s4, steps[4]);
  }

  lemma RouteIsFound(c: Config, s: System, n: nat, u: string)
    requires u != "" && s.requests == map[0 := Asked("h", n)]
    requires "h" in s.routes && s.routes["h"] == Json(Route("h", u, 0, "closed"))
    ensures Apply(c, s, ReadRoute(0, false)) == s.(requests := map[0 := Routed("h", n, u)])
  {
  }

  lemma UpAtTheLastInstant(c: Config, s: System, n: nat, u: string, cur: Snapshot)
    requires c.maxAge <= 0 && cur.state == Up && s.requests == map[0 := Routed("h", n, u)]
    requires s.statuses == map[u := Cell(Json(cur), Some(s.now))]
    ensures Apply(c, s, ReadStatus(0, false)) == s.(requests := map[0 := Answered("h", n, Allow(u), s.now)])
  {
  }

  /** The age bound of `EveryAllowIsJustified` cannot be improved: some run answers exactly one time to
      live plus one interval after the timestamp of the only poll there was. */
  lemma AgeBoundIsReached(c: Config, now: Instant, u: string) returns (steps: seq<Step>)
    requires OnePoller(c, u) && now != ZERO_TIME
    ensures var s := Exec(c, Start(now), steps);
            && |s.records| == 1 && 0 in s.requests
            && s.requests[0].Answered? && s.requests[0].verdict == Allow(u)
            && s.requests[0].at == s.records[0].cur.checkedAt + c.interval + Ttl(c.ttlSeconds)
  {
    var polled, s1, cur := SlowPoll(c, now, u);
    var read, s2 := LateRead(c, s1, u, cur);
    steps := polled + read;
    ExecConcat(c, Start(now), polled, read);
    assert s2 == Exec(c, Start(now), steps);
  }
}
