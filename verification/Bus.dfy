/** The Redis state bus (control-plane/internal/redis/client.go): status keys with a time to live,
    route keys without one, and reads that fail closed.

    Assumed of Redis: a key set at `w` with time to live `d` is returned by reads up to `w + d` and
    by none later. Assumed of JSON: what was marshalled unmarshals to the same value; any other bytes
    are `Garbled`. */
module Bus {
  import opened Text
  import opened Vpn

  datatype Bytes<+T> = Json(value: T) | Garbled

  datatype Cell = Cell(raw: Bytes<Snapshot>, expiresAt: Option<Instant>)

  datatype Route = Route(target: string, tunnel: string, tier: int, breakerState: string)

  function StatusKey(profile: string): string { "vpn:status:" + profile }
  function RouteKey(target: string): string { "route:" + target }

  /** Both kinds of key live in one keyspace and never meet, so two maps can stand for it. */
  lemma KeysNeverCollide(a: string, b: string)
    ensures StatusKey(a) != RouteKey(b)
    ensures StatusKey(a) == StatusKey(b) <==> a == b
    ensures RouteKey(a) == RouteKey(b) <==> a == b
  {
    assert StatusKey(a)[0] == 'v' && RouteKey(b)[0] == 'r';
    assert StatusKey(a)[11..] == a && StatusKey(b)[11..] == b;
    assert RouteKey(a)[6..] == a && RouteKey(b)[6..] == b;
  }

  /** The time to live that `SetStatus` passes on: seconds to nanoseconds in 64-bit arithmetic. A
      result that is not positive sets no expiry. */
  function Ttl(ttlSeconds: int): Duration {
    if ttlSeconds > 0 then Wrap64(ttlSeconds * SECOND) else 0
  }

  /** The conversion is exact up to 9223372036 seconds and the next value already turns negative, so
      from there a status key may never expire. */
  lemma TtlIsExactUpTo292Years(ttlSeconds: int)
    requires ttlSeconds > 0
    ensures Ttl(ttlSeconds) == ttlSeconds * SECOND <==> ttlSeconds <= 9_223_372_036
    ensures Ttl(9_223_372_037) < 0
  {
    if ttlSeconds <= 9_223_372_036 {
      assert ttlSeconds * SECOND < WORD;
    }
    assert 9_223_372_037 * SECOND < WORD;
  }

  /** The fail-closed reading of a status key. */
  function EvaluateStatus(profile: string, raw: Option<Bytes<Snapshot>>, now: Instant, maxAge: Duration): (r: Snapshot)
    ensures r.state == Up
       <==> && raw.Some? && raw.value.Json? && raw.value.value.state == Up
            && (maxAge > 0 ==> now - raw.value.value.checkedAt <= maxAge || maxAge == MAX_DURATION)
    ensures raw.None? || raw.value.Garbled? ==>
              r.state == Down && r.profile == profile && r.checkedAt == now && r.tx == r.rx == 0 && r.egressIP == ""
    ensures raw.Some? && raw.value.Json? ==>
              var stored := raw.value.value;
              && r.(state := stored.state, profile := stored.profile) == stored
              && r.profile == (if stored.profile == "" then profile else stored.profile)
              && (r.state == stored.state || (stored.state == Up && r.state == Down))
  {
    if raw.None? then ZERO_SNAPSHOT.(profile := profile, state := Down, checkedAt := now)
    else if raw.value.Garbled? then ZERO_SNAPSHOT.(profile := profile, state := Down, checkedAt := now)
    else
      var snap := raw.value.value;
      var snap := if snap.profile == "" then snap.(profile := profile) else snap;
      if snap.state != Up then snap
      else if maxAge > 0 && Sub(now, snap.checkedAt) > maxAge then snap.(state := Down)
      else snap
  }

  // ---------------------------------------------------------------- the two key families

  type Statuses = map<string, Cell>
  type Routes = map<string, Bytes<Route>>

  function PutStatus(m: Statuses, snap: Snapshot, ttlSeconds: int, now: Instant): Statuses {
    var ttl := Ttl(ttlSeconds);
    m[snap.profile := Cell(Json(snap), if ttl > 0 then Some(now + ttl) else None)]
  }

  predicate Live(cell: Cell, now: Instant) { cell.expiresAt.None? || now <= cell.expiresAt.value }

  function Visible(m: Statuses, profile: string, now: Instant): Option<Bytes<Snapshot>> {
    if profile in m && Live(m[profile], now) then Some(m[profile].raw) else None
  }

  /** `GetStatus`: a transport fault reads as a missing key. */
  function FetchStatus(m: Statuses, profile: string, now: Instant, maxAge: Duration, fault: bool): Snapshot {
    EvaluateStatus(profile, if fault then None else Visible(m, profile, now), now, maxAge)
  }

  /** `GetRoute`: a miss, a fault and undecodable bytes are all errors. */
  function FetchRoute(m: Routes, target: string, fault: bool): Option<Route> {
    if !fault && target in m && m[target].Json? then Some(m[target].value) else None
  }

  /** The last route for a target. */
  function LastFor(rs: seq<Route>, h: string): (r: Option<Route>)
    ensures r.Some? ==> r.value in rs && r.value.target == h
    ensures r.None? ==> forall x :: x in rs ==> x.target != h
  {
    if rs == [] then None
    else
      assert rs == Front(rs) + [Last(rs)];
      if Last(rs).target == h then Some(Last(rs)) else LastFor(Front(rs), h)
  }

  class Client {
    const maxAge: Duration
    var statuses: Statuses
    var routes: Routes

    constructor (maxAge: Duration)
      ensures this.maxAge == maxAge && statuses == map[] && routes == map[]
    {
      this.maxAge, statuses, routes := maxAge, map[], map[];
    }

    method SetStatus(snap: Snapshot, ttlSeconds: int, now: Instant, fault: bool) returns (ok: bool)
      modifies this`statuses
      ensures ok == !fault
      ensures statuses == if ok then PutStatus(old(statuses), snap, ttlSeconds, now) else old(statuses)
    {
      if fault { return false; }
      var ttl: Duration := 0;
      if ttlSeconds > 0 { ttl := Wrap64(ttlSeconds * SECOND); }
      var expiresAt := None;
      if ttl > 0 { expiresAt := Some(now + ttl); }
      statuses := statuses[snap.profile := Cell(Json(snap), expiresAt)];
      ok := true;
    }

    method GetStatus(profile: string, now: Instant, fault: bool) returns (snap: Snapshot, ok: bool)
      ensures ok == !fault
      ensures snap == FetchStatus(statuses, profile, now, maxAge, fault)
      ensures fault || profile !in statuses || !Live(statuses[profile], now) ==> snap.state == Down
    {
      if fault { return EvaluateStatus(profile, None, now, maxAge), false; }
      snap := EvaluateStatus(profile, Visible(statuses, profile, now), now, maxAge);
      ok := true;
    }

    method SetRoute(r: Route, fault: bool) returns (ok: bool)
      modifies this`routes
      ensures ok == !fault
      ensures routes == if ok then old(routes)[r.target := Json(r)] else old(routes)
    {
      if fault { return false; }
      routes := routes[r.target := Json(r)];
      ok := true;
    }

    method GetRoute(target: string, fault: bool) returns (r: Option<Route>)
      ensures r == FetchRoute(routes, target, fault)
    {
      if fault || target !in routes { return None; }
      r := match routes[target] case Json(v) => Some(v) case Garbled => None;
    }
  }
}
