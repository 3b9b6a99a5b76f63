/** The data-plane health verdict (control-plane/internal/vpn/health.go).

    An instant counts nanoseconds from Go's zero `time.Time`, so the zero time is 0. A duration is
    a signed 64-bit nanosecond count, and subtracting instants saturates as `time.Time.Sub` does. */
module Vpn {

  type Instant = int

  const ZERO_TIME: Instant := 0
  const MAX_DURATION := 0x7FFF_FFFF_FFFF_FFFF
  const MIN_DURATION := -0x8000_0000_0000_0000
  const SECOND := 1_000_000_000

  type Duration = d: int | -0x8000_0000_0000_0000 <= d <= 0x7FFF_FFFF_FFFF_FFFF

  const WORD := 0x1_0000_0000_0000_0000

  /** A byte counter, `uint64`. */
  type Counter = n: nat | n < 0x1_0000_0000_0000_0000

  datatype State = Up | Down | Unknown

  datatype Snapshot = Snapshot(
    profile: string, state: State, lastHandshake: Instant, rx: Counter, tx: Counter,
    egressIP: string, checkedAt: Instant, liveProbeAt: Instant)

  /** Go's zero `HealthSnapshot`, the first tx baseline. */
  const ZERO_SNAPSHOT := Snapshot("", Unknown, ZERO_TIME, 0, 0, "", ZERO_TIME, ZERO_TIME)

  /** Two's-complement wrap-around to 64 bits. */
  function Wrap64(n: int): Duration {
    var m := n % WORD;
    if m > MAX_DURATION then m - WORD else m
  }

  function Sub(t: Instant, u: Instant): Duration {
    if t - u > MAX_DURATION then MAX_DURATION else if t - u < MIN_DURATION then MIN_DURATION else t - u
  }

  predicate WgProofFresh(prev: Snapshot, cur: Snapshot, freshness: Duration) {
    if cur.lastHandshake == ZERO_TIME then false
    else
      var age := Sub(cur.checkedAt, cur.lastHandshake);
      if age < 0 || age > freshness then false else cur.tx > prev.tx
  }

  predicate LiveProbeFresh(cur: Snapshot, freshness: Duration) {
    if cur.liveProbeAt == ZERO_TIME then false
    else
      var age := Sub(cur.checkedAt, cur.liveProbeAt);
      age >= 0 && age <= freshness
  }

  /** `a` happened at `at` or within `window` before it. Only the largest duration is unbounded,
      because a saturated difference can never exceed it. */
  predicate Recent(a: Instant, at: Instant, window: Duration) {
    a != ZERO_TIME && a <= at && (at - a <= window || window == MAX_DURATION)
  }

  /** What "up" has to mean: a real egress that is not the host's own, and one recent proof that
      bytes moved. Stated on plain instants, without the code's order of tests. */
  ghost predicate Evidence(prev: Snapshot, cur: Snapshot, hostIP: string, freshness: Duration) {
    && freshness > 0
    && cur.egressIP != ""
    && (hostIP != "" ==> cur.egressIP != hostIP)
    && (|| (Recent(cur.lastHandshake, cur.checkedAt, freshness) && cur.tx > prev.tx)
        || Recent(cur.liveProbeAt, cur.checkedAt, freshness))
  }

  function DecideHealth(prev: Snapshot, cur: Snapshot, hostIP: string, freshness: Duration): (r: State)
    ensures r == Up <==> Evidence(prev, cur, hostIP, freshness)
    ensures r != Up ==> r == Down
  {
    if freshness <= 0 then Down
    else if cur.egressIP == "" then Down
    else if hostIP != "" && cur.egressIP == hostIP then Down
    else if WgProofFresh(prev, cur, freshness) then Up
    else if LiveProbeFresh(cur, freshness) then Up
    else Down
  }
}
