/** The health-to-request protocol as one timed system: healthd pollers, the Redis keys and the
    Squid helper's requests, interleaved step by step on one shared clock.

    A run is a sequence of steps. A step that is not enabled changes nothing, so every sequence of
    steps is a run: any schedule of ticks, writes, expiries, crashes, faults and requests. */
module Pipeline {
  import opened Text
  import opened Vpn
  import opened Healthd
  import opened Bus
  import opened Decide

  /** `profiles` names the profile that each poller goroutine serves; `maxAge` is the helper's. */
  datatype Config = Config(
    interval: Duration, rules: Rules, ttlSeconds: int, maxAge: Duration, profiles: map<nat, string>)

  /** Where a poller stands in its tick. `start` is when the tick's deadline began to run. */
  datatype Phase =
    | Idle
    | Started(start: Instant)
    | Stamped(start: Instant, stampedAt: Instant)
    | Decided(start: Instant, cur: Snapshot)
    | Stored(cur: Snapshot)

  datatype Poller = Poller(loop: Loop, phase: Phase)

  /** `since` is how many routes had been seeded when the request came in. */
  datatype Request =
    | Asked(host: string, since: nat)
    | Routed(host: string, since: nat, tunnel: string)
    | Answered(host: string, since: nat, verdict: Verdict, at: Instant)

  /** One completed poll: the baseline it compared with and what it found. */
  datatype Record = Record(profile: string, prev: Snapshot, cur: Snapshot)

  datatype System = System(
    now: Instant, statuses: Statuses, routes: Routes,
    pollers: map<nat, Poller>, requests: map<nat, Request>,
    records: seq<Record>, seeds: seq<Route>)

  function Start(now: Instant): System { System(now, map[], map[], map[], map[], [], []) }

  datatype Step =
    | Elapse(nanos: nat)
    | TickStarts(p: nat)
    | PollStamps(p: nat)
    | PollEnds(p: nat, seen: Observation)
    | StatusWrite(p: nat, applied: bool)
    | TickEnds(p: nat)
    | Crash(p: nat)
    | Seed(route: Route)
    | Ask(r: nat, host: string)
    | ReadRoute(r: nat, fault: bool)
    | ReadStatus(r: nat, fault: bool)
    | LoseStatus(profile: string)
    | GarbleStatus(profile: string)
    | LoseRoute(target: string)
    | GarbleRoute(target: string)

  function PollerOf(s: System, p: nat): Poller {
    if p in s.pollers then s.pollers[p] else Poller(FRESH_LOOP, Idle)
  }

  /** What one step of a poller does: its next state, the poll it completed, the snapshot it stored. */
  datatype Move = Move(next: Poller, found: seq<Record>, put: Option<Snapshot>)

  function PollerMove(c: Config, profile: string, now: Instant, x: Poller, step: Step): Move {
    match step
    case TickStarts(_) =>
      Move(if x.phase.Idle? then x.(phase := Started(now)) else x, [], None)
    case PollStamps(_) =>
      Move(if x.phase.Started? then x.(phase := Stamped(x.phase.start, now)) else x, [], None)
    case PollEnds(_, seen) =>
      if x.phase.Stamped? then
        var cur := Poll(c.rules, profile, x.loop.prev, Tick(x.phase.stampedAt, now, seen, true));
        Move(x.(phase := Decided(x.phase.start, cur)), [Record(profile, x.loop.prev, cur)], None)
      else Move(x, [], None)
    case StatusWrite(_, applied) =>
      // The write runs under the tick's deadline; lost or late, it leaves the key alone and the
      // tick goes on.
      if x.phase.Decided? then
        Move(x.(phase := Stored(x.phase.cur)), [],
             if applied && now <= x.phase.start + c.interval then Some(x.phase.cur) else None)
      else Move(x, [], None)
    case TickEnds(_) =>
      Move(if x.phase.Stored? then Poller(Advance(x.loop, x.phase.cur), Idle) else x, [], None)
    case Crash(_) => Move(Poller(FRESH_LOOP, Idle), [], None)
    case _ => Move(x, [], None)
  }

  function ApplyPoller(c: Config, s: System, step: Step, p: nat): System {
    if p !in c.profiles then s
    else
      var m := PollerMove(c, c.profiles[p], s.now, PollerOf(s, p), step);
      s.(pollers := s.pollers[p := m.next],
         records := s.records + m.found,
         statuses := if m.put.Some? then PutStatus(s.statuses, m.put.value, c.ttlSeconds, s.now) else s.statuses)
  }

  /** The next state of a request under a read step. */
  function RequestMove(c: Config, s: System, x: Request, step: Step): Request {
    if step.ReadRoute? && x.Asked? then
      match AfterRoute(x.host, FetchRoute(s.routes, x.host, step.fault))
      case None => Answered(x.host, x.since, Refuse, s.now)
      case Some(tunnel) => Routed(x.host, x.since, tunnel)
    else if step.ReadStatus? && x.Routed? then
      var status := FetchStatus(s.statuses, x.tunnel, s.now, c.maxAge, step.fault);
      Answered(x.host, x.since, AfterStatus(x.tunnel, status, step.fault), s.now)
    else x
  }

  function ApplyRequest(c: Config, s: System, step: Step, r: nat): System {
    if r in s.requests then s.(requests := s.requests[r := RequestMove(c, s, s.requests[r], step)])
    else if step.Ask? then s.(requests := s.requests[r := Asked(step.host, |s.seeds|)])
    else s
  }

  function ApplyRedis(s: System, step: Step): System {
    match step
    case Seed(route) => s.(routes := s.routes[route.target := Json(route)], seeds := s.seeds + [route])
    case LoseStatus(u) => s.(statuses := s.statuses - {u})
    case GarbleStatus(u) =>
      if u in s.statuses then s.(statuses := s.statuses[u := s.statuses[u].(raw := Garbled)]) else s
    case LoseRoute(h) => s.(routes := s.routes - {h})
    case GarbleRoute(h) => if h in s.routes then s.(routes := s.routes[h := Garbled]) else s
    case _ => s
  }

  function Apply(c: Config, s: System, step: Step): System {
    match step
    case Elapse(nanos) => s.(now := s.now + nanos)
    case TickStarts(p) => ApplyPoller(c, s, step, p)
    case PollStamps(p) => ApplyPoller(c, s, step, p)
    case PollEnds(p, _) => ApplyPoller(c, s, step, p)
    case StatusWrite(p, _) => ApplyPoller(c, s, step, p)
    case TickEnds(p) => ApplyPoller(c, s, step, p)
    case Crash(p) => ApplyPoller(c, s, step, p)
    case Ask(r, _) => ApplyRequest(c, s, step, r)
    case ReadRoute(r, _) => ApplyRequest(c, s, step, r)
    case ReadStatus(r, _) => ApplyRequest(c, s, step, r)
    case _ => ApplyRedis(s, step)
  }

  function Exec(c: Config, s: System, steps: seq<Step>): System {
    if steps == [] then s else Apply(c, Exec(c, s, Front(steps)), Last(steps))
  }

  // ---------------------------------------------------------------- the invariant

  /** Record `i` is a poll of `u` that found `u` up, with everything that up has to mean. */
  ghost predicate Proof(c: Config, records: seq<Record>, i: nat, u: string) {
    && i < |records|
    && records[i].profile == u
    && Evidence(records[i].prev, records[i].cur, c.rules.hostIP, c.rules.freshness)
  }

  /** `snap` was found by a poll of `u` that proved it up. */
  ghost predicate Backed(c: Config, records: seq<Record>, u: string, snap: Snapshot) {
    exists i: nat :: Proof(c, records, i, u) && records[i].cur == snap
  }

  /** A fact stamped at `checkedAt` may back an answer at `at`: it is not later, at most one time to
      live plus one poll interval old when status keys expire, and within the freshness window when
      the helper has one. */
  predicate InTime(c: Config, checkedAt: Instant, at: Instant) {
    var age := at - checkedAt;
    && 0 <= age
    && (Ttl(c.ttlSeconds) > 0 ==> age <= Ttl(c.ttlSeconds) + c.interval)
    && (c.maxAge > 0 ==> age <= c.maxAge || c.maxAge == MAX_DURATION)
  }

  /** What an answer `OK tag=u` given at `at` rests on: a timely poll of `u` that proved it up. */
  ghost predicate Justified(c: Config, records: seq<Record>, u: string, at: Instant) {
    exists i: nat :: Proof(c, records, i, u) && InTime(c, records[i].cur.checkedAt, at)
  }

  ghost predicate PhaseOk(c: Config, s: System, p: nat, x: Phase) {
    match x
    case Idle => true
    case Started(start) => start <= s.now
    case Stamped(start, at) => start <= at <= s.now
    case Decided(start, cur) =>
      && p in c.profiles && cur.profile == c.profiles[p]
      && start <= cur.checkedAt <= s.now
      && (cur.state == Up ==> Backed(c, s.records, cur.profile, cur))
    case Stored(_) => true
  }

  ghost predicate CellOk(c: Config, s: System, u: string, cell: Cell) {
    cell.raw.Json? && cell.raw.value.state == Up ==>
      var snap := cell.raw.value;
      && snap.checkedAt <= s.now
      && Backed(c, s.records, u, snap)
      && (Ttl(c.ttlSeconds) > 0 ==>
            cell.expiresAt.Some? && cell.expiresAt.value <= snap.checkedAt + c.interval + Ttl(c.ttlSeconds))
  }

  ghost predicate RequestOk(c: Config, s: System, x: Request) {
    match x
    case Asked(_, since) => since <= |s.seeds|
    case Routed(host, since, tunnel) => Seeded(s.seeds, since, host, tunnel)
    case Answered(host, since, verdict, at) =>
      verdict.Allow? ==> Seeded(s.seeds, since, host, verdict.tag) && Justified(c, s.records, verdict.tag, at)
  }

  /** Of the first `n` routes the compiler seeded, the last one for `host` leads to `tunnel`. */
  ghost predicate RouteAfter(seeds: seq<Route>, n: nat, host: string, tunnel: string) {
    n <= |seeds| && LastFor(seeds[..n], host).Some? && LastFor(seeds[..n], host).value.tunnel == tunnel
  }

  /** At some time after `since` routes had been seeded, the latest route for `host` led to `tunnel`. */
  ghost predicate Seeded(seeds: seq<Route>, since: nat, host: string, tunnel: string) {
    host != "" && tunnel != "" && exists n: nat :: since <= n && RouteAfter(seeds, n, host, tunnel)
  }

  lemma SeededGrows(seeds: seq<Route>, more: Route, since: nat, host: string, tunnel: string)
    requires Seeded(seeds, since, host, tunnel)
    ensures Seeded(seeds + [more], since, host, tunnel)
  {
    var n: nat :| since <= n && RouteAfter(seeds, n, host, tunnel);
    assert (seeds + [more])[..n] == seeds[..n];
    assert RouteAfter(seeds + [more], n, host, tunnel);
  }

  ghost predicate Inv(c: Config, s: System) {
    && (forall p :: p in s.pollers ==> PhaseOk(c, s, p, s.pollers[p].phase))
    && (forall u :: u in s.statuses ==> CellOk(c, s, u, s.statuses[u]))
    && (forall r :: r in s.requests ==> RequestOk(c, s, s.requests[r]))
    && (forall h :: h in s.routes && s.routes[h].Json? ==> LastFor(s.seeds, h) == Some(s.routes[h].value))
  }

  lemma BackedGrows(c: Config, records: seq<Record>, more: seq<Record>, u: string, snap: Snapshot)
    requires Backed(c, records, u, snap)
    ensures Backed(c, records + more, u, snap)
  {
    var i: nat :| Proof(c, records, i, u) && records[i].cur == snap;
    assert Proof(c, records + more, i, u);
  }

  lemma JustifiedGrows(c: Config, records: seq<Record>, more: seq<Record>, u: string, at: Instant)
    requires Justified(c, records, u, at)
    ensures Justified(c, records + more, u, at)
  {
    var i: nat :| Proof(c, records, i, u) && InTime(c, records[i].cur.checkedAt, at);
    assert Proof(c, records + more, i, u);
  }

  /** A longer poll history takes no proof away. */
  lemma InvGrows(c: Config, s: System, more: seq<Record>)
    requires Inv(c, s)
    ensures Inv(c, s.(records := s.records + more))
  {
    var s' := s.(records := s.records + more);
    forall p | p in s.pollers ensures PhaseOk(c, s', p, s.pollers[p].phase) {
      var x := s.pollers[p].phase;
      if x.Decided? && x.cur.state == Up { BackedGrows(c, s.records, more, x.cur.profile, x.cur); }
    }
    forall u | u in s.statuses ensures CellOk(c, s', u, s.statuses[u]) {
      var raw := s.statuses[u].raw;
      if raw.Json? && raw.value.state == Up { BackedGrows(c, s.records, more, u, raw.value); }
    }
    forall r | r in s.requests ensures RequestOk(c, s', s.requests[r]) {
      var x := s.requests[r];
      if x.Answered? && x.verdict.Allow? { JustifiedGrows(c, s.records, more, x.verdict.tag, x.at); }
    }
  }

  lemma PollerMoveIsOk(c: Config, s: System, step: Step, p: nat)
    requires Inv(c, s) && p in c.profiles
    ensures var m := PollerMove(c, c.profiles[p], s.now, PollerOf(s, p), step);
            var s' := s.(records := s.records + m.found);
            && PhaseOk(c, s', p, m.next.phase)
            && (m.put.Some? ==> CellOk(c, s', m.put.value.profile,
                                       PutStatus(s.statuses, m.put.value, c.ttlSeconds, s.now)[m.put.value.profile]))
  {
    var x := PollerOf(s, p);
    var m := PollerMove(c, c.profiles[p], s.now, x, step);
    assert PhaseOk(c, s, p, x.phase);
    InvGrows(c, s, m.found);
    if m.found != [] && m.found[0].cur.state == Up {
      assert Proof(c, s.records + m.found, |s.records|, c.profiles[p]);
    }
  }

  lemma PollerStepKeepsInv(c: Config, s: System, step: Step, p: nat)
    requires Inv(c, s)
    ensures Inv(c, ApplyPoller(c, s, step, p))
  {
    if p in c.profiles {
      var m := PollerMove(c, c.profiles[p], s.now, PollerOf(s, p), step);
      InvGrows(c, s, m.found);
      PollerMoveIsOk(c, s, step, p);
    }
  }

  lemma RequestStepKeepsInv(c: Config, s: System, step: Step, r: nat)
    requires Inv(c, s)
    ensures Inv(c, ApplyRequest(c, s, step, r))
  {
    if r in s.requests {
      var x := s.requests[r];
      assert RequestOk(c, s, x);
      var y := RequestMove(c, s, x, step);
      if x.Asked? && y.Routed? {
        assert s.seeds[..|s.seeds|] == s.seeds;
        assert RouteAfter(s.seeds, |s.seeds|, x.host, y.tunnel);
      }
      if x.Routed? && y.Answered? && y.verdict.Allow? {
        var u := x.tunnel;
        assert CellOk(c, s, u, s.statuses[u]);
        var i: nat :| Proof(c, s.records, i, u) && s.records[i].cur == s.statuses[u].raw.value;
        assert InTime(c, s.records[i].cur.checkedAt, s.now);
      }
    }
  }

  lemma RedisStepKeepsInv(c: Config, s: System, step: Step)
    requires Inv(c, s)
    ensures Inv(c, ApplyRedis(s, step))
  {
    if step.Seed? {
      var s' := ApplyRedis(s, step);
      assert Front(s'.seeds) == s.seeds;
      forall r | r in s.requests ensures RequestOk(c, s', s.requests[r]) {
        var x := s.requests[r];
        if x.Routed? { SeededGrows(s.seeds, step.route, x.since, x.host, x.tunnel); }
        if x.Answered? && x.verdict.Allow? { SeededGrows(s.seeds, step.route, x.since, x.host, x.verdict.tag); }
      }
    }
  }

  lemma ElapseKeepsInv(c: Config, s: System, nanos: nat)
    requires Inv(c, s)
    ensures Inv(c, s.(now := s.now + nanos))
  {
  }

  lemma StepKeepsInv(c: Config, s: System, step: Step)
    requires Inv(c, s)
    ensures Inv(c, Apply(c, s, step))
  {
    match step
    case Elapse(nanos) => ElapseKeepsInv(c, s, nanos);
    case TickStarts(p) => PollerStepKeepsInv(c, s, step, p);
    case PollStamps(p) => PollerStepKeepsInv(c, s, step, p);
    case PollEnds(p, _) => PollerStepKeepsInv(c, s, step, p);
    case StatusWrite(p, _) => PollerStepKeepsInv(c, s, step, p);
    case TickEnds(p) => PollerStepKeepsInv(c, s, step, p);
    case Crash(p) => PollerStepKeepsInv(c, s, step, p);
    case Ask(r, _) => RequestStepKeepsInv(c, s, step, r);
    case ReadRoute(r, _) => RequestStepKeepsInv(c, s, step, r);
    case ReadStatus(r, _) => RequestStepKeepsInv(c, s, step, r);
    case _ => RedisStepKeepsInv(c, s, step);
  }

  lemma {:induction false} RunKeepsInv(c: Config, s: System, steps: seq<Step>)
    requires Inv(c, s)
    ensures Inv(c, Exec(c, s, steps))
  {
    if steps != [] {
      RunKeepsInv(c, s, Front(steps));
      StepKeepsInv(c, Exec(c, s, Front(steps)), Last(steps));
    }
  }

  // ---------------------------------------------------------------- safety over every run

  /** No run answers `OK` without recent proof: when `host` is allowed with tag `u`, the route to `u` was
      the latest that the compiler had seeded for `host` at some time after the request came in, and the
      answer rests on a poll of `u` with a real egress and a fresh proof, at most one time to live plus
      one interval old. */
  lemma EveryAllowIsJustified(c: Config, now: Instant, steps: seq<Step>, r: nat)
    requires r in Exec(c, Start(now), steps).requests
    requires Exec(c, Start(now), steps).requests[r].Answered?
    ensures var s := Exec(c, Start(now), steps);
            var x := s.requests[r];
            x.verdict.Allow? ==>
              && Seeded(s.seeds, x.since, x.host, x.verdict.tag)
              && Justified(c, s.records, x.verdict.tag, x.at)
  {
    RunKeepsInv(c, Start(now), steps);
    assert RequestOk(c, Exec(c, Start(now), steps), Exec(c, Start(now), steps).requests[r]);
  }
}
