/** What a run of the pipeline amounts to, read off its steps alone: the ticks that each poller made, the
    polls they came to, the status and the route that stand under each key, and the answer that each
    request must get. The state machine of `Pipeline` is shown to do exactly this. */
module Trace {
  import opened Text
  import opened Vpn
  import opened Healthd
  import opened Bus
  import opened Decide
  import opened Pipeline

  /** The time after these steps. */
  function Clock(start: Instant, steps: seq<Step>): Instant {
    if steps == [] then start
    else Clock(start, Front(steps)) + if Last(steps).Elapse? then Last(steps).nanos else 0
  }

  // ---------------------------------------------------------------- ticks

  /** Where a poller stands in a tick: when the tick began, when the sampler stamped it, and what the poll
      then saw. */
  datatype Stage =
    | Between
    | Begun(began: Instant)
    | Sampling(began: Instant, stampedAt: Instant)
    | Deciding(began: Instant, tick: Tick)
    | Ending(tick: Tick)

  /** The ticks that a poller has finished since it last started up, and the one it is in. */
  datatype Ticks = Ticks(finished: seq<Tick>, stage: Stage)

  function TicksOf(start: Instant, steps: seq<Step>, p: nat): Ticks {
    if steps == [] then Ticks([], Between)
    else
      var before, now := TicksOf(start, Front(steps), p), Clock(start, Front(steps));
      match (Last(steps), before.stage)
      case (TickStarts(q), Between) => if q == p then before.(stage := Begun(now)) else before
      case (PollStamps(q), Begun(began)) => if q == p then before.(stage := Sampling(began, now)) else before
      case (PollEnds(q, seen), Sampling(began, at)) =>
        if q == p then before.(stage := Deciding(began, Tick(at, now, seen, true))) else before
      case (StatusWrite(q, _), Deciding(_, tick)) => if q == p then before.(stage := Ending(tick)) else before
      case (TickEnds(q), Ending(tick)) => if q == p then Ticks(before.finished + [tick], Between) else before
      case (Crash(q), _) => if q == p then Ticks([], Between) else before
      case _ => before
  }

  /** The poll that a poller comes to in this tick, after those it has finished. */
  function PollIn(c: Config, profile: string, finished: seq<Tick>, tick: Tick): Snapshot {
    Poll(c.rules, profile, After(c.rules, profile, finished).prev, tick)
  }

  /** The poller's state that these ticks lead to. */
  function PollerAfter(c: Config, profile: string, t: Ticks): Poller {
    Poller(After(c.rules, profile, t.finished),
           match t.stage
           case Between => Idle
           case Begun(began) => Started(began)
           case Sampling(began, at) => Stamped(began, at)
           case Deciding(began, tick) => Decided(began, PollIn(c, profile, t.finished, tick))
           case Ending(tick) => Stored(PollIn(c, profile, t.finished, tick)))
  }

  lemma {:induction false} ClockIsNow(c: Config, start: Instant, steps: seq<Step>)
    ensures Exec(c, Start(start), steps).now == Clock(start, steps)
  {
    if steps != [] { ClockIsNow(c, start, Front(steps)); }
  }

  /** In every run each poller is where its ticks lead: its baseline and its last reported state are those
      of the poll loop after the ticks it has finished. */
  lemma {:induction false} PollersFollowTicks(c: Config, start: Instant, steps: seq<Step>, p: nat)
    requires p in c.profiles
    ensures PollerOf(Exec(c, Start(start), steps), p) == PollerAfter(c, c.profiles[p], TicksOf(start, steps, p))
  {
    if steps != [] {
      PollersFollowTicks(c, start, Front(steps), p);
      ClockIsNow(c, start, Front(steps));
      StepMovesPoller(c, Exec(c, Start(start), Front(steps)), Last(steps), p);
      TickAdvances(c, start, steps, p);
    }
  }

  predicate Moves(step: Step, p: nat) {
    && (step.TickStarts? || step.PollStamps? || step.PollEnds? || step.StatusWrite? || step.TickEnds? || step.Crash?)
    && step.p == p
  }

  lemma StepMovesPoller(c: Config, s: System, step: Step, p: nat)
    requires p in c.profiles
    ensures PollerOf(Apply(c, s, step), p)
         == if Moves(step, p) then PollerMove(c, c.profiles[p], s.now, PollerOf(s, p), step).next else PollerOf(s, p)
  {
  }

  lemma TickAdvances(c: Config, start: Instant, steps: seq<Step>, p: nat)
    requires steps != [] && p in c.profiles
    ensures var before, now, step := TicksOf(start, Front(steps), p), Clock(start, Front(steps)), Last(steps);
            var x := PollerAfter(c, c.profiles[p], before);
            PollerAfter(c, c.profiles[p], TicksOf(start, steps, p))
            == if Moves(step, p) then PollerMove(c, c.profiles[p], now, x, step).next else x
  {
    var before, step := TicksOf(start, Front(steps), p), Last(steps);
    if step.TickEnds? && step.p == p && before.stage.Ending? {
      var tick := before.stage.tick;
      assert Front(before.finished + [tick]) == before.finished && Last(before.finished + [tick]) == tick;
    }
  }

  // ---------------------------------------------------------------- polls

  /** The polls of a run, in order, each with the baseline it was judged against. */
  function PollsOf(c: Config, start: Instant, steps: seq<Step>): seq<Record> {
    if steps == [] then []
    else
      var before, step := PollsOf(c, start, Front(steps)), Last(steps);
      if step.PollEnds? && step.p in c.profiles && TicksOf(start, Front(steps), step.p).stage.Sampling? then
        var u, t := c.profiles[step.p], TicksOf(start, Front(steps), step.p);
        var tick := Tick(t.stage.stampedAt, Clock(start, Front(steps)), step.seen, true);
        before + [Record(u, After(c.rules, u, t.finished).prev, PollIn(c, u, t.finished, tick))]
      else before
  }

  /** The recorded polls are exactly these. */
  lemma {:induction false} RecordsArePolls(c: Config, start: Instant, steps: seq<Step>)
    ensures Exec(c, Start(start), steps).records == PollsOf(c, start, steps)
  {
    if steps != [] {
      var s, step := Exec(c, Start(start), Front(steps)), Last(steps);
      RecordsArePolls(c, start, Front(steps));
      ClockIsNow(c, start, Front(steps));
      if step.PollEnds? && step.p in c.profiles { PollersFollowTicks(c, start, Front(steps), step.p); }
      StepRecords(c, s, step);
    }
  }

  lemma StepRecords(c: Config, s: System, step: Step)
    ensures Apply(c, s, step).records
         == s.records + if step.PollEnds? && step.p in c.profiles
                        then PollerMove(c, c.profiles[step.p], s.now, PollerOf(s, step.p), step).found else []
  {
  }

  // ---------------------------------------------------------------- the status that stands

  /** A stored poll, and when it was stored. */
  datatype Standing = Standing(snap: Snapshot, at: Instant)

  /** The poll of `u` that this step stores: one that its poller has come to, written in time. Whether it is
      up or down does not matter. */
  function Stores(c: Config, start: Instant, before: seq<Step>, step: Step, u: string): Option<Snapshot> {
    if step.StatusWrite? && step.applied && step.p in c.profiles && c.profiles[step.p] == u then
      var t := TicksOf(start, before, step.p);
      if t.stage.Deciding? && Clock(start, before) <= t.stage.began + c.interval
      then Some(PollIn(c, u, t.finished, t.stage.tick)) else None
    else None
  }

  /** The last stored poll of `u`, unless its key was lost or garbled since. */
  function StatusOf(c: Config, start: Instant, steps: seq<Step>, u: string): Option<Standing> {
    if steps == [] then None
    else
      var before, step := Front(steps), Last(steps);
      var stored := Stores(c, start, before, step, u);
      if stored.Some? then Some(Standing(stored.value, Clock(start, before)))
      else if step == LoseStatus(u) || step == GarbleStatus(u) then None
      else StatusOf(c, start, before, u)
  }

  /** What the key of `u` then is. */
  predicate KeyIs(c: Config, m: Statuses, u: string, st: Option<Standing>) {
    match st
    case None => u in m ==> m[u].raw.Garbled?
    case Some(x) =>
      && u in m && m[u].raw == Json(x.snap)
      && m[u].expiresAt == if Ttl(c.ttlSeconds) > 0 then Some(x.at + Ttl(c.ttlSeconds)) else None
  }

  lemma StepKeepsKey(c: Config, s: System, step: Step, u: string, stored: Option<Snapshot>, st: Option<Standing>)
    requires KeyIs(c, s.statuses, u, st)
    requires stored == if step.StatusWrite? && step.p in c.profiles && c.profiles[step.p] == u
                       then PollerMove(c, u, s.now, PollerOf(s, step.p), step).put else None
    requires step.StatusWrite? && step.p in c.profiles ==>
               var put := PollerMove(c, c.profiles[step.p], s.now, PollerOf(s, step.p), step).put;
               put.Some? ==> put.value.profile == c.profiles[step.p]
    ensures KeyIs(c, Apply(c, s, step).statuses, u,
                  if stored.Some? then Some(Standing(stored.value, s.now))
                  else if step == LoseStatus(u) || step == GarbleStatus(u) then None else st)
  {
  }

  /** In every run each key holds exactly the status that stands. */
  lemma {:induction false} KeysHoldWhatStands(c: Config, start: Instant, steps: seq<Step>, u: string)
    ensures KeyIs(c, Exec(c, Start(start), steps).statuses, u, StatusOf(c, start, steps, u))
  {
    if steps != [] {
      var before, step := Front(steps), Last(steps);
      KeysHoldWhatStands(c, start, before, u);
      ClockIsNow(c, start, before);
      if step.StatusWrite? && step.p in c.profiles { PollersFollowTicks(c, start, before, step.p); }
      StepKeepsKey(c, Exec(c, Start(start), before), step, u, Stores(c, start, before, step, u),
                   StatusOf(c, start, before, u));
    }
  }

  /** The status that stands says up, has not expired and is not too old for the helper. */
  predicate StandsUp(c: Config, start: Instant, steps: seq<Step>, u: string) {
    var st, now := StatusOf(c, start, steps, u), Clock(start, steps);
    && st.Some? && st.value.snap.state == Up
    && (Ttl(c.ttlSeconds) > 0 ==> now <= st.value.at + Ttl(c.ttlSeconds))
    && (c.maxAge > 0 ==> now - st.value.snap.checkedAt <= c.maxAge || c.maxAge == MAX_DURATION)
  }

  /** Every status read of a run evaluates the status that stands. */
  lemma StatusReadsWhatStands(c: Config, start: Instant, steps: seq<Step>, u: string)
    ensures var s := Exec(c, Start(start), steps);
            FetchStatus(s.statuses, u, s.now, c.maxAge, false).state == Up <==> StandsUp(c, start, steps, u)
  {
    KeysHoldWhatStands(c, start, steps, u);
    ClockIsNow(c, start, steps);
  }

  // ---------------------------------------------------------------- the route that stands

  /** The last route seeded for `h`, unless its key was lost or garbled since. */
  function RouteFor(steps: seq<Step>, h: string): Option<Route> {
    if steps == [] then None
    else
      match Last(steps)
      case Seed(route) => if route.target == h then Some(route) else RouteFor(Front(steps), h)
      case LoseRoute(t) => if t == h then None else RouteFor(Front(steps), h)
      case GarbleRoute(t) => if t == h then None else RouteFor(Front(steps), h)
      case _ => RouteFor(Front(steps), h)
  }

  lemma StepKeepsRoute(c: Config, s: System, step: Step, h: string)
    ensures FetchRoute(Apply(c, s, step).routes, h, false)
         == match step
            case Seed(route) => if route.target == h then Some(route) else FetchRoute(s.routes, h, false)
            case LoseRoute(t) => if t == h then None else FetchRoute(s.routes, h, false)
            case GarbleRoute(t) => if t == h then None else FetchRoute(s.routes, h, false)
            case _ => FetchRoute(s.routes, h, false)
  {
  }

  lemma {:induction false} RoutesHoldWhatStands(c: Config, start: Instant, steps: seq<Step>, h: string)
    ensures FetchRoute(Exec(c, Start(start), steps).routes, h, false) == RouteFor(steps, h)
  {
    if steps != [] {
      RoutesHoldWhatStands(c, start, Front(steps), h);
      StepKeepsRoute(c, Exec(c, Start(start), Front(steps)), Last(steps), h);
    }
  }

  // ---------------------------------------------------------------- answers

  /** How far a request is: asked for a host, led to a tunnel, or answered with a tag, or with none. */
  datatype Progress =
    | NotAsked
    | Wanted(host: string)
    | Led(host: string, tunnel: string)
    | Given(host: string, tag: Option<string>, at: Instant)

  /** The progress of request `r`, from what stood when its two reads were made: the first read finds the
      route for its host, the second the status of that route's tunnel, and anything missing, unreadable,
      empty, down, expired, stale or faulty is a refusal. */
  function ProgressOf(c: Config, start: Instant, steps: seq<Step>, r: nat): Progress {
    if steps == [] then NotAsked
    else
      var before := Front(steps);
      var x, now := ProgressOf(c, start, before, r), Clock(start, before);
      match (Last(steps), x)
      case (Ask(q, host), NotAsked) => if q == r then Wanted(host) else x
      case (ReadRoute(q, fault), Wanted(host)) =>
        if q != r then x
        else
          var route := RouteFor(before, host);
          if fault || host == "" || route.None? || route.value.tunnel == "" then Given(host, None, now)
          else Led(host, route.value.tunnel)
      case (ReadStatus(q, fault), Led(host, u)) =>
        if q != r then x
        else Given(host, if !fault && StandsUp(c, start, before, u) then Some(u) else None, now)
      case _ => x
  }

  predicate RequestIs(s: System, r: nat, x: Progress) {
    match x
    case NotAsked => r !in s.requests
    case Wanted(host) => r in s.requests && s.requests[r].Asked? && s.requests[r].host == host
    case Led(host, u) =>
      r in s.requests && s.requests[r].Routed? && s.requests[r].host == host && s.requests[r].tunnel == u
    case Given(host, tag, at) =>
      && r in s.requests && s.requests[r].Answered? && s.requests[r].host == host && s.requests[r].at == at
      && s.requests[r].verdict == if tag.Some? then Allow(tag.value) else Refuse
  }

  lemma StepKeepsProgress(
    c: Config, s: System, step: Step, r: nat, x: Progress, route: Option<Route>, up: bool)
    requires RequestIs(s, r, x)
    requires x.Wanted? ==> route == FetchRoute(s.routes, x.host, false)
    requires x.Led? ==> up == (FetchStatus(s.statuses, x.tunnel, s.now, c.maxAge, false).state == Up)
    ensures RequestIs(Apply(c, s, step), r,
      match (step, x)
      case (Ask(q, host), NotAsked) => if q == r then Wanted(host) else x
      case (ReadRoute(q, fault), Wanted(host)) =>
        if q != r then x
        else if fault || host == "" || route.None? || route.value.tunnel == "" then Given(host, None, s.now)
        else Led(host, route.value.tunnel)
      case (ReadStatus(q, fault), Led(host, u)) =>
        if q != r then x else Given(host, if !fault && up then Some(u) else None, s.now)
      case _ => x)
  {
  }

  /** In every run every request gets exactly the answer that its steps call for. */
  lemma {:induction false} AnswersAreDue(c: Config, start: Instant, steps: seq<Step>, r: nat)
    ensures RequestIs(Exec(c, Start(start), steps), r, ProgressOf(c, start, steps, r))
  {
    if steps != [] {
      var before := Front(steps);
      var x := ProgressOf(c, start, before, r);
      AnswersAreDue(c, start, before, r);
      ClockIsNow(c, start, before);
      if x.Wanted? { RoutesHoldWhatStands(c, start, before, x.host); }
      if x.Led? { StatusReadsWhatStands(c, start, before, x.tunnel); }
      StepKeepsProgress(c, Exec(c, Start(start), before), Last(steps), r, x,
                        if x.Wanted? then RouteFor(before, x.host) else None,
                        x.Led? && StandsUp(c, start, before, x.tunnel));
    }
  }

  // ---------------------------------------------------------------- down means down

  /** No up poll of `u` is stored along these steps, which follow `before`. */
  ghost predicate NoUpStored(c: Config, start: Instant, before: seq<Step>, more: seq<Step>, u: string) {
    forall i :: 0 <= i < |more| ==>
      var stored := Stores(c, start, before + more[..i], more[i], u);
      stored.Some? ==> stored.value.state != Up
  }

  lemma {:induction false} DownStands(c: Config, start: Instant, before: seq<Step>, more: seq<Step>, u: string)
    requires NoUpStored(c, start, before, more, u)
    requires StatusOf(c, start, before, u).Some? ==> StatusOf(c, start, before, u).value.snap.state != Up
    ensures StatusOf(c, start, before + more, u).Some? ==> StatusOf(c, start, before + more, u).value.snap.state != Up
  {
    if more == [] {
      assert before + more == before;
    } else {
      var n := |more| - 1;
      assert Front(before + more) == before + Front(more) && Last(before + more) == Last(more) == more[n];
      assert more[..n] == Front(more);
      forall i | 0 <= i < n
        ensures var stored := Stores(c, start, before + Front(more)[..i], Front(more)[i], u);
                stored.Some? ==> stored.value.state != Up
      {
        assert Front(more)[..i] == more[..i];
      }
      DownStands(c, start, before, Front(more), u);
    }
  }

  /** Once a down poll of `u` is stored, no request is allowed with `u` until an up poll is: whoever has
      that answer had it before. */
  lemma {:induction false} DownRefusesAtOnce(
    c: Config, start: Instant, before: seq<Step>, write: Step, more: seq<Step>, u: string, r: nat)
    requires var stored := Stores(c, start, before, write, u); stored.Some? && stored.value.state != Up
    requires NoUpStored(c, start, before + [write], more, u)
    requires var x := ProgressOf(c, start, before + [write] + more, r); x.Given? && x.tag == Some(u)
    ensures ProgressOf(c, start, before, r) == ProgressOf(c, start, before + [write] + more, r)
  {
    var first := before + [write];
    assert Front(first) == before && Last(first) == write;
    if more == [] {
      assert first + more == first;
    } else {
      var n := |more| - 1;
      var rest := Front(more);
      assert Front(first + more) == first + rest && Last(first + more) == more[n] && more[..n] == rest;
      forall i | 0 <= i < n
        ensures var stored := Stores(c, start, first + rest[..i], rest[i], u);
                stored.Some? ==> stored.value.state != Up
      {
        assert rest[..i] == more[..i];
      }
      DownStands(c, start, first, rest, u);
      assert !StandsUp(c, start, first + rest, u);
      DownRefusesAtOnce(c, start, before, write, rest, u, r);
    }
  }
}
