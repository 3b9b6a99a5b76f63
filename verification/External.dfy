/** How Squid decides an external acl: it asks a helper for the words of the acl's format, and may give a
    kept answer instead (config/squid/squid.dynamic.conf, control-plane/internal/routing/routing.go).

    Assumed of Squid: an acl of kind `external` names the type that answers for it; an answer is kept for
    later requests only if the time to live of its kind is positive, and no longer than that; `%>ha{Name}`
    is the value of the request's header of that name. Other format codes, and arguments of the acl
    itself, are not modelled and spell nothing. */
module External {
  import opened Text
  import opened Vpn
  import opened Squid

  /** A helper was asked for a request, with these words, and answered. */
  datatype Consult = Consult(request: nat, command: seq<string>, key: seq<string>, ok: bool, at: Instant)

  /** The headers of a request. */
  type Headers = string -> string

  function Expand(code: string, headers: Headers): Option<string> {
    if |code| > 5 && "%>ha{" <= code && Last(code) == '}' then Some(headers(code[5..|code| - 1])) else None
  }

  /** The format asks for these words. */
  predicate Spells(format: seq<string>, headers: Headers, key: seq<string>) {
    |format| == |key| && forall i :: 0 <= i < |format| ==> Expand(format[i], headers) == Some(key[i])
  }

  /** The answer is still kept for other requests. */
  predicate Kept(d: Directive, asked: Consult, now: Instant)
    requires d.ExternalAcl?
  {
    var ttl := if asked.ok then d.ttl else d.negativeTtl;
    ttl > 0 && asked.at <= now <= asked.at + ttl * SECOND
  }

  /** The external acl may answer a request with this consultation. */
  predicate Answers(d: Directive, asked: Consult, request: nat, headers: Headers, now: Instant) {
    && d.ExternalAcl? && asked.command == d.command && Spells(d.format, headers, asked.key)
    && (asked.request == request || Kept(d, asked, now))
  }

  predicate Defines(d: Directive, acl: string, via: string) {
    d.AclDef? && d.name == acl && d.kind == "external" && d.values == [via]
  }

  /** After these consultations, Squid may find the acl to have this value for the request. */
  ghost predicate MayBe(
    ds: seq<Directive>, acl: string, log: seq<Consult>, request: nat, headers: Headers, now: Instant, value: bool)
  {
    exists i, j, k ::
      && 0 <= i < |ds| && 0 <= j < |ds| && 0 <= k < |log|
      && ds[j].ExternalAcl? && Defines(ds[i], acl, ds[j].name)
      && Answers(ds[j], log[k], request, headers, now) && log[k].ok == value
  }

  /** The base leaves the names of the include alone. */
  predicate Unwired(ds: seq<Directive>) {
    forall i :: 0 <= i < |ds| ==>
      && (ds[i].AclDef? ==> ds[i].name != "tun_up")
      && (ds[i].ExternalAcl? ==> ds[i].name != "vpn_route")
  }

  lemma {:induction false} PeersDefineNothing(tunnels: seq<Tunnel>)
    ensures forall d :: d in PeerDirectives(tunnels) ==> !d.AclDef? && !d.ExternalAcl?
  {
    if tunnels != [] { PeersDefineNothing(Front(tunnels)); }
  }

  /** Around the include, only its own lines define `tun_up` and `vpn_route`. */
  lemma OnlyTheWiring(
    before: seq<Directive>, helperPath: string, tunnels: seq<Tunnel>, after: seq<Directive>, d: Directive)
    requires Unwired(before) && Unwired(after) && d in before + Include(helperPath, tunnels) + after
    ensures d.AclDef? && d.name == "tun_up" ==> d == WiringBlock(helperPath)[1]
    ensures d.ExternalAcl? && d.name == "vpn_route" ==> d == WiringBlock(helperPath)[0]
  {
    PeersDefineNothing(tunnels);
    var w, p := WiringBlock(helperPath), PeerDirectives(tunnels);
    assert before + Include(helperPath, tunnels) + after == before + w + p + CLOSED_BLOCK + after;
    assert d in before || d in w || d in p || d in CLOSED_BLOCK || d in after;
    assert d in w ==> d == w[0] || d == w[1];
  }

  lemma WiringIsThere(before: seq<Directive>, helperPath: string, tunnels: seq<Tunnel>, after: seq<Directive>)
    ensures var ds := before + Include(helperPath, tunnels) + after;
            |before| + 1 < |ds| && ds[|before|] == WiringBlock(helperPath)[0]
            && ds[|before| + 1] == WiringBlock(helperPath)[1]
  {
    var inc := Include(helperPath, tunnels);
    assert inc[0] == WiringBlock(helperPath)[0] && inc[1] == WiringBlock(helperPath)[1];
  }

  lemma HostIsAsked(headers: Headers, key: seq<string>)
    ensures Spells(["%>ha{Host}"], headers, key) <==> key == [headers("Host")]
  {
    var code := "%>ha{Host}";
    assert code[5..|code| - 1] == "Host" && "%>ha{" <= code;
  }

  /** The helper was asked, for this very request, for its Host header, and gave this answer. */
  predicate AskedFor(asked: Consult, helperPath: string, request: nat, host: string, value: bool) {
    && asked.request == request
    && asked.command == [if helperPath == "" then "/usr/lib/helix-proxy/acl-helper" else helperPath]
    && asked.key == [host]
    && asked.ok == value
  }

  lemma WiringAnswers(helperPath: string, asked: Consult, request: nat, headers: Headers, now: Instant)
    ensures Answers(WiringBlock(helperPath)[0], asked, request, headers, now)
       <==> AskedFor(asked, helperPath, request, headers("Host"), asked.ok)
  {
    HostIsAsked(headers, asked.key);
  }

  /** What `tun_up` is: in any base that leaves its names alone, Squid finds it to have a value exactly when
      the helper at the configured path gave that answer for this request's own Host header. No answer to
      another request stands in for it. */
  lemma TunUpIsTheHelpersAnswer(
    before: seq<Directive>, helperPath: string, tunnels: seq<Tunnel>, after: seq<Directive>,
    log: seq<Consult>, request: nat, headers: Headers, now: Instant, value: bool)
    requires Unwired(before) && Unwired(after)
    ensures MayBe(before + Include(helperPath, tunnels) + after, "tun_up", log, request, headers, now, value)
       <==> exists k :: 0 <= k < |log| && AskedFor(log[k], helperPath, request, headers("Host"), value)
  {
    var ds := before + Include(helperPath, tunnels) + after;
    WiringIsThere(before, helperPath, tunnels, after);
    if k :| 0 <= k < |log| && AskedFor(log[k], helperPath, request, headers("Host"), value) {
      WiringAnswers(helperPath, log[k], request, headers, now);
      var i, j := |before| + 1, |before|;
      assert Defines(ds[i], "tun_up", ds[j].name);
    }
    if MayBe(ds, "tun_up", log, request, headers, now, value) {
      var i, j, k :| && 0 <= i < |ds| && 0 <= j < |ds| && 0 <= k < |log|
                     && ds[j].ExternalAcl? && Defines(ds[i], "tun_up", ds[j].name)
                     && Answers(ds[j], log[k], request, headers, now) && log[k].ok == value;
      OnlyTheWiring(before, helperPath, tunnels, after, ds[i]);
      OnlyTheWiring(before, helperPath, tunnels, after, ds[j]);
      WiringAnswers(helperPath, log[k], request, headers, now);
    }
  }
}
