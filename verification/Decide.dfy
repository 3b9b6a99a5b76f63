/** The per-request verdict (control-plane/internal/aclhelper/decide.go). Its two bus reads are
    separate, so the verdict is cut where another process may act in between. */
module Decide {
  import opened Text
  import opened Vpn
  import opened Bus

  datatype Verdict = Allow(tag: string) | Refuse

  /** After the route read: the tunnel whose status to ask for, or nothing when refused. */
  function AfterRoute(host: string, route: Option<Route>): Option<string> {
    if host == "" then None
    else if route.None? then None
    else if route.value.tunnel == "" then None
    else Some(route.value.tunnel)
  }

  /** After the status read. */
  function AfterStatus(tunnel: string, status: Snapshot, fault: bool): Verdict {
    if fault then Refuse
    else if status.state != Up then Refuse
    else Allow(tunnel)
  }

  /** The whole verdict: the route read sees `routes`, the status read, at `now`, sees `statuses`. */
  function VerdictFor(host: string, routes: Routes, statuses: Statuses, now: Instant, maxAge: Duration): (v: Verdict)
    ensures v.Allow? <==> && host != "" && host in routes && routes[host].Json? && routes[host].value.tunnel != ""
                          && FetchStatus(statuses, routes[host].value.tunnel, now, maxAge, false).state == Up
    ensures v.Allow? ==> v.tag == routes[host].value.tunnel
  {
    match AfterRoute(host, FetchRoute(routes, host, false))
    case None => Refuse
    case Some(tunnel) => AfterStatus(tunnel, FetchStatus(statuses, tunnel, now, maxAge, false), false)
  }
}
