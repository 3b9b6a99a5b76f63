/** Per-tunnel circuit breakers (control-plane/internal/breaker/tunnelbreaker.go).

    Assumed of the breaker library, one atomic step per call: consecutive failures reaching the
    threshold open the circuit for the cooldown; after it, the circuit is half-open and the next
    probe decides, a success closing and a failure reopening it; probes meanwhile are ignored. */
module Breaker {
  import opened Text
  import opened Vpn

  const DEFAULT_FAIL_THRESHOLD := 3
  const DEFAULT_COOLDOWN := 30 * SECOND

  datatype Options = Options(failThreshold: nat, cooldown: Duration)

  function FailThreshold(o: Options): (n: nat)
    ensures n > 0
  {
    if o.failThreshold == 0 then DEFAULT_FAIL_THRESHOLD else o.failThreshold
  }

  function Cooldown(o: Options): (d: int)
    ensures d > 0
  {
    if o.cooldown <= 0 then DEFAULT_COOLDOWN else o.cooldown
  }

  datatype Circuit = Closed(failures: nat) | Open(until: Instant) | HalfOpen

  const FRESH := Closed(0)

  /** The state at `now`: an open circuit half-opens once its cooldown has passed. */
  function Current(x: Circuit, now: Instant): Circuit {
    if x.Open? && x.until < now then HalfOpen else x
  }

  function Probe(o: Options, x: Circuit, success: bool, now: Instant): Circuit {
    match Current(x, now)
    case Closed(n) =>
      if success then Closed(0)
      else if n + 1 >= FailThreshold(o) then Open(now + Cooldown(o))
      else Closed(n + 1)
    case HalfOpen => if success then Closed(0) else Open(now + Cooldown(o))
    case Open(until) => Open(until)
  }

  // ---------------------------------------------------------------- the registry

  type Breakers = map<string, Circuit>

  /** A tunnel never seen before has a fresh, closed breaker. */
  function Of(m: Breakers, tunnel: string): Circuit { if tunnel in m then m[tunnel] else FRESH }

  datatype Event = Recorded(tunnel: string, success: bool, at: Instant) | Asked(tunnel: string, at: Instant)

  function Handle(o: Options, m: Breakers, e: Event): Breakers {
    match e
    case Recorded(t, success, at) => m[t := Probe(o, Of(m, t), success, at)]
    case Asked(t, at) => m[t := Current(Of(m, t), at)]
  }

  class Registry {
    const opts: Options
    var breakers: Breakers

    constructor (opts: Options)
      ensures this.opts == opts && breakers == map[]
    {
      this.opts, breakers := opts, map[];
    }

    /** Lazy creation: changes no tunnel's breaker as seen through the registry. */
    method Get(tunnel: string) returns (b: Circuit)
      modifies this
      ensures tunnel in breakers && b == breakers[tunnel] == Of(old(breakers), tunnel)
      ensures forall t :: Of(breakers, t) == Of(old(breakers), t)
      ensures breakers == old(breakers)[tunnel := b]
    {
      if tunnel !in breakers { breakers := breakers[tunnel := FRESH]; }
      b := breakers[tunnel];
    }

    method Record(tunnel: string, success: bool, now: Instant)
      modifies this
      ensures breakers == Handle(opts, old(breakers), Recorded(tunnel, success, now))
    {
      var b := Get(tunnel);
      breakers := breakers[tunnel := Probe(opts, b, success, now)];
    }

    method IsClosed(tunnel: string, now: Instant) returns (closed: bool)
      modifies this
      ensures closed == Current(Of(old(breakers), tunnel), now).Closed?
      ensures breakers == Handle(opts, old(breakers), Asked(tunnel, now))
    {
      var b := Get(tunnel);
      breakers := breakers[tunnel := Current(b, now)];
      closed := breakers[tunnel].Closed?;
    }
  }

  // ---------------------------------------------------------------- histories

  function After(o: Options, events: seq<Event>): Breakers {
    if events == [] then map[] else Handle(o, After(o, Front(events)), Last(events))
  }

  datatype Outcome = Outcome(success: bool, at: Instant)

  /** The probe outcomes recorded for one tunnel, without anything else that happened. */
  function Own(events: seq<Event>, tunnel: string): seq<Outcome> {
    if events == [] then []
    else
      var before := Own(Front(events), tunnel);
      match Last(events)
      case Recorded(t, success, at) => if t == tunnel then before + [Outcome(success, at)] else before
      case Asked(_, _) => before
  }

  /** A single breaker fed with those outcomes. */
  function Alone(o: Options, own: seq<Outcome>): Circuit {
    if own == [] then FRESH else Probe(o, Alone(o, Front(own)), Last(own).success, Last(own).at)
  }

  predicate InOrder(events: seq<Event>) {
    |events| <= 1 || (InOrder(Front(events)) && Last(Front(events)).at <= Last(events).at)
  }

  /** What a tunnel's breaker answers depends only on its own outcomes and their times: neither other
      tunnels, nor queries, nor when the breaker was created make a difference. */
  lemma {:induction false} BreakersAreIndependent(o: Options, events: seq<Event>, tunnel: string, now: Instant)
    requires InOrder(events) && (events != [] ==> Last(events).at <= now)
    ensures Current(Of(After(o, events), tunnel), now) == Current(Alone(o, Own(events, tunnel)), now)
  {
    if events != [] {
      var before, e := Front(events), Last(events);
      var m, y := After(o, before), Alone(o, Own(before, tunnel));
      if e.Recorded? && e.tunnel == tunnel {
        BreakersAreIndependent(o, before, tunnel, e.at);
        HandleOwn(o, m, e, y);
        assert Front(Own(events, tunnel)) == Own(before, tunnel);
      } else {
        BreakersAreIndependent(o, before, tunnel, now);
        HandleOther(o, m, e, tunnel, y, now);
      }
    }
  }

  /** A probe depends on its breaker only through the state at that time. */
  lemma HandleOwn(o: Options, m: Breakers, e: Event, y: Circuit)
    requires e.Recorded? && Current(Of(m, e.tunnel), e.at) == Current(y, e.at)
    ensures Of(Handle(o, m, e), e.tunnel) == Probe(o, y, e.success, e.at)
  {
  }

  /** Anything else leaves the breaker as it is or looks at it earlier. */
  lemma HandleOther(o: Options, m: Breakers, e: Event, tunnel: string, y: Circuit, now: Instant)
    requires !(e.Recorded? && e.tunnel == tunnel) && e.at <= now
    requires Current(Of(m, tunnel), now) == Current(y, now)
    ensures Current(Of(Handle(o, m, e), tunnel), now) == Current(y, now)
  {
  }

  /** The failures at the end of a history, counted back to the last success. */
  function TrailingFailures(own: seq<Outcome>): nat {
    if own == [] || Last(own).success then 0 else 1 + TrailingFailures(Front(own))
  }

  /** What the options mean: the threshold and the cooldown as given, or 3 and 30 seconds. */
  predicate Means(o: Options, limit: nat, dwell: int) {
    && limit == (if o.failThreshold == 0 then 3 else o.failThreshold)
    && dwell == (if o.cooldown <= 0 then 30_000_000_000 else o.cooldown)
  }

  /** When the breaker that is open after these outcomes was opened, read off the outcomes and their times:
      a run of `limit` failures opens it; nothing within `dwell` of the opening matters; the first outcome
      after that closes it or opens it again. */
  function OpenedAt(limit: nat, dwell: int, own: seq<Outcome>): Option<Instant> {
    if own == [] then None
    else
      var last := Last(own);
      match OpenedAt(limit, dwell, Front(own))
      case None => if TrailingFailures(own) >= limit then Some(last.at) else None
      case Some(at) => if last.at <= at + dwell then Some(at) else if last.success then None else Some(last.at)
  }

  lemma {:induction false} AloneFollowsOutcomes(o: Options, limit: nat, dwell: int, own: seq<Outcome>)
    requires Means(o, limit, dwell)
    ensures match OpenedAt(limit, dwell, own)
            case None => Alone(o, own) == Closed(TrailingFailures(own)) && TrailingFailures(own) < limit
            case Some(at) => Alone(o, own) == Open(at + dwell)
  {
    if own != [] { AloneFollowsOutcomes(o, limit, dwell, Front(own)); }
  }

  /** The registry reports a tunnel closed. */
  predicate ReportedClosed(o: Options, events: seq<Event>, tunnel: string, now: Instant) {
    Current(Of(After(o, events), tunnel), now).Closed?
  }

  /** Whatever is interleaved, the registry reports a tunnel closed exactly when the tunnel's own outcomes
      leave no opening that counts. */
  lemma ReportedClosedExactly(
    o: Options, limit: nat, dwell: int, events: seq<Event>, tunnel: string, now: Instant)
    requires Means(o, limit, dwell) && InOrder(events) && (events != [] ==> Last(events).at <= now)
    ensures ReportedClosed(o, events, tunnel, now) <==> OpenedAt(limit, dwell, Own(events, tunnel)).None?
  {
    BreakersAreIndependent(o, events, tunnel, now);
    AloneFollowsOutcomes(o, limit, dwell, Own(events, tunnel));
  }

  /** Whatever is interleaved, a tunnel that the registry reports closed has fewer failures at the end
      of its own history than the threshold. */
  lemma ClosedMeansFewFailures(
    o: Options, limit: nat, dwell: int, events: seq<Event>, tunnel: string, now: Instant)
    requires Means(o, limit, dwell) && InOrder(events) && (events != [] ==> Last(events).at <= now)
    requires ReportedClosed(o, events, tunnel, now)
    ensures TrailingFailures(Own(events, tunnel)) < limit
  {
    ReportedClosedExactly(o, limit, dwell, events, tunnel, now);
    AloneFollowsOutcomes(o, limit, dwell, Own(events, tunnel));
  }

  /** A closed breaker opens exactly on the failure that makes the trailing run reach the threshold. */
  lemma OpensExactlyAtThreshold(
    o: Options, limit: nat, dwell: int, events: seq<Event>, tunnel: string, success: bool, at: Instant)
    requires Means(o, limit, dwell) && InOrder(events) && (events != [] ==> Last(events).at <= at)
    requires ReportedClosed(o, events, tunnel, at)
    ensures ReportedClosed(o, events + [Recorded(tunnel, success, at)], tunnel, at)
       <==> success || TrailingFailures(Own(events, tunnel)) + 1 < limit
  {
    var more := events + [Recorded(tunnel, success, at)];
    OwnGrows(events, tunnel, success, at);
    ReportedClosedExactly(o, limit, dwell, events, tunnel, at);
    ReportedClosedExactly(o, limit, dwell, more, tunnel, at);
    OpensOn(limit, dwell, Own(events, tunnel), Outcome(success, at));
  }

  lemma OwnGrows(events: seq<Event>, tunnel: string, success: bool, at: Instant)
    requires InOrder(events) && (events != [] ==> Last(events).at <= at)
    ensures var more := events + [Recorded(tunnel, success, at)];
            && InOrder(more) && Last(more).at == at
            && Own(more, tunnel) == Own(events, tunnel) + [Outcome(success, at)]
  {
    var more := events + [Recorded(tunnel, success, at)];
    assert Front(more) == events;
  }

  lemma OpensOn(limit: nat, dwell: int, own: seq<Outcome>, next: Outcome)
    requires limit > 0 && OpenedAt(limit, dwell, own).None?
    ensures OpenedAt(limit, dwell, own + [next]).None? <==> next.success || TrailingFailures(own) + 1 < limit
  {
    assert Front(own + [next]) == own;
  }

  predicate Within(outcomes: seq<Outcome>, end: Instant) { forall i :: 0 <= i < |outcomes| ==> outcomes[i].at <= end }

  lemma {:induction false} OpeningStands(limit: nat, dwell: int, own: seq<Outcome>, at: Instant, during: seq<Outcome>)
    requires OpenedAt(limit, dwell, own) == Some(at) && Within(during, at + dwell)
    ensures OpenedAt(limit, dwell, own + during) == Some(at)
  {
    if during == [] {
      assert own + during == own;
    } else {
      assert Front(own + during) == own + Front(during) && Last(own + during) == Last(during);
      OpeningStands(limit, dwell, own, at, Front(during));
    }
  }

  lemma FirstAfterOpening(limit: nat, dwell: int, own: seq<Outcome>, at: Instant, during: seq<Outcome>, next: Outcome)
    requires OpenedAt(limit, dwell, own) == Some(at) && Within(during, at + dwell) && next.at > at + dwell
    ensures OpenedAt(limit, dwell, own + during + [next]) == if next.success then None else Some(next.at)
  {
    OpeningStands(limit, dwell, own, at, during);
    assert Front(own + during + [next]) == own + during;
  }

  /** The outcome `trip` opens a tunnel's breaker: it is the failure that makes the trailing run of a closed
      breaker reach the threshold. */
  predicate Trips(limit: nat, dwell: int, own: seq<Outcome>, trip: Outcome) {
    OpenedAt(limit, dwell, own).None? && TrailingFailures(own + [trip]) >= limit
  }

  lemma TripOpens(limit: nat, dwell: int, own: seq<Outcome>, trip: Outcome)
    requires Trips(limit, dwell, own, trip)
    ensures OpenedAt(limit, dwell, own + [trip]) == Some(trip.at)
  {
    assert Front(own + [trip]) == own;
  }

  /** Once a tunnel's failures reach the threshold, nothing recorded within the cooldown of that makes the
      registry report it closed, whatever happens to other tunnels. */
  lemma OpenIgnoresProbes(
    o: Options, limit: nat, dwell: int, events: seq<Event>, tunnel: string, now: Instant,
    own: seq<Outcome>, trip: Outcome, during: seq<Outcome>)
    requires Means(o, limit, dwell) && InOrder(events) && (events != [] ==> Last(events).at <= now)
    requires Trips(limit, dwell, own, trip) && Within(during, trip.at + dwell)
    requires Own(events, tunnel) == own + [trip] + during
    ensures !ReportedClosed(o, events, tunnel, now)
  {
    TripOpens(limit, dwell, own, trip);
    OpeningStands(limit, dwell, own + [trip], trip.at, during);
    ReportedClosedExactly(o, limit, dwell, events, tunnel, now);
  }

  /** The first outcome after the cooldown decides alone: the tunnel is reported closed exactly if it is a
      success. */
  lemma FirstProbeAfterCooldownDecides(
    o: Options, limit: nat, dwell: int, events: seq<Event>, tunnel: string, now: Instant,
    own: seq<Outcome>, trip: Outcome, during: seq<Outcome>, next: Outcome)
    requires Means(o, limit, dwell) && InOrder(events) && (events != [] ==> Last(events).at <= now)
    requires Trips(limit, dwell, own, trip) && Within(during, trip.at + dwell) && next.at > trip.at + dwell
    requires Own(events, tunnel) == own + [trip] + during + [next]
    ensures ReportedClosed(o, events, tunnel, now) <==> next.success
  {
    TripOpens(limit, dwell, own, trip);
    FirstAfterOpening(limit, dwell, own + [trip], trip.at, during, next);
    ReportedClosedExactly(o, limit, dwell, events, tunnel, now);
  }

  /** If it is a failure, the cooldown starts again from it: nothing within that makes the registry report
      the tunnel closed, and the first outcome after it decides again. */
  lemma FailedProbeReopens(
    o: Options, limit: nat, dwell: int, events: seq<Event>, tunnel: string, now: Instant,
    own: seq<Outcome>, trip: Outcome, during: seq<Outcome>, failed: Outcome, again: seq<Outcome>, last: seq<Outcome>)
    requires Means(o, limit, dwell) && InOrder(events) && (events != [] ==> Last(events).at <= now)
    requires Trips(limit, dwell, own, trip) && Within(during, trip.at + dwell)
    requires failed.at > trip.at + dwell && !failed.success && Within(again, failed.at + dwell)
    requires |last| <= 1 && (last != [] ==> last[0].at > failed.at + dwell)
    requires Own(events, tunnel) == own + [trip] + during + [failed] + again + last
    ensures ReportedClosed(o, events, tunnel, now) <==> last != [] && last[0].success
  {
    TripOpens(limit, dwell, own, trip);
    FirstAfterOpening(limit, dwell, own + [trip], trip.at, during, failed);
    var reopened := own + [trip] + during + [failed];
    if last == [] {
      OpeningStands(limit, dwell, reopened, failed.at, again);
      assert reopened + again + last == reopened + again;
    } else {
      FirstAfterOpening(limit, dwell, reopened, failed.at, again, last[0]);
      assert last == [last[0]];
    }
    ReportedClosedExactly(o, limit, dwell, events, tunnel, now);
  }
}
