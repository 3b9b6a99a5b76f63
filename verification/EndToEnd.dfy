/** The pieces together: the tables' include around the helper's answers, over every run of the
    pipeline. */
module EndToEnd {
  import opened Text
  import opened Vpn
  import opened Bus
  import opened Decide
  import opened Replies
  import opened Names
  import opened ConfigText
  import opened Store
  import opened Squid
  import opened Access
  import opened External
  import opened Sorting
  import opened Routing
  import opened Meaning
  import Acl = AclProtocol
  import Pipeline

  /** Peer host overrides, with the helper's path, are the parts of the include that the compiler does not
      sanitize. */
  predicate HostIsWord(p: Profile) { p.config.host == "" || ConfigWord(p.config.host) }

  lemma TunnelWords(p: Profile)
    ensures Plain(TunnelOf(p).name)
    ensures ConfigWord(TunnelOf(p).peerHost) <==> HostIsWord(p)
  {
    assert Plain("tun_" + Sanitized(p.name));
    PlainIsWord("gluetun-" + Sanitized(p.name));
  }

  /** The include that a compile renders reads back as one peer per enabled profile, in name order, each
      allowed on `tun_up` and else denied, with the wiring and the fail-closed block once, exactly when the
      helper's path can stand at the end of a line and does not start as a format does, and every host
      override of an enabled profile is a word. */
  lemma CompiledIncludeReadsBackExactly(prose: Prose, helperPath: string, profiles: seq<Profile>)
    requires ProseOk(prose)
    ensures ReadConfig(RenderInclude(prose, helperPath, Tunnels(profiles))) == Include(helperPath, Tunnels(profiles))
       <==> && HelperOk(helperPath)
            && forall p :: p in profiles && p.enabled ==> HostIsWord(p)
  {
    TunnelsAreEnabledProfiles(profiles);
    var tunnels := Tunnels(profiles);
    forall p | p in profiles && p.enabled
      ensures TunnelOf(p) in tunnels && (ConfigWord(TunnelOf(p).peerHost) <==> HostIsWord(p))
    {
      TunnelWords(p);
    }
    forall i | 0 <= i < |tunnels|
      ensures Plain(tunnels[i].name)
      ensures exists p :: p in profiles && p.enabled && tunnels[i] == TunnelOf(p)
    {
      assert tunnels[i] in tunnels;
      var p :| p in profiles && p.enabled && tunnels[i] == TunnelOf(p);
      TunnelWords(p);
    }
    IncludeReadsBackExactly(prose, helperPath, tunnels);
    assert (forall i :: 0 <= i < |tunnels| ==> ConfigWord(tunnels[i].peerHost))
      <==> (forall t :: t in tunnels ==> ConfigWord(t.peerHost));
  }

  // ---------------------------------------------------------------- the peers, from table to text and back

  /** The peers that a configuration defines. */
  function PeersOf(ds: seq<Directive>): seq<Directive> {
    if ds == [] then [] else PeersOf(Front(ds)) + if Last(ds).CachePeer? then [Last(ds)] else []
  }

  lemma {:induction false} PeersOfConcat(a: seq<Directive>, b: seq<Directive>)
    ensures PeersOf(a + b) == PeersOf(a) + PeersOf(b)
  {
    if b == [] {
      assert a + b == a;
    } else {
      assert Front(a + b) == a + Front(b) && Last(a + b) == Last(b);
      PeersOfConcat(a, Front(b));
    }
  }

  lemma {:induction false} NoPeersOf(ds: seq<Directive>)
    requires forall i :: 0 <= i < |ds| ==> !ds[i].CachePeer?
    ensures PeersOf(ds) == []
  {
    if ds != [] { NoPeersOf(Front(ds)); }
  }

  function PeerLine(t: Tunnel): Directive { PeerBlock(t)[0] }

  lemma PeersOfBlock(t: Tunnel)
    ensures PeersOf(PeerBlock(t)) == [PeerLine(t)]
  {
    var block := PeerBlock(t);
    assert block == [block[0]] + [block[1], block[2]];
    PeersOfConcat([block[0]], [block[1], block[2]]);
    NoPeersOf([block[1], block[2]]);
    assert Front([block[0]]) == [];
  }

  lemma {:induction false} PeersOfTunnels(tunnels: seq<Tunnel>)
    ensures PeersOf(PeerDirectives(tunnels)) == Image(PeerLine, tunnels)
  {
    if tunnels != [] {
      PeersOfTunnels(Front(tunnels));
      PeersOfBlock(Last(tunnels));
      PeersOfConcat(PeerDirectives(Front(tunnels)), PeerBlock(Last(tunnels)));
    }
  }

  lemma PeersOfInclude(helperPath: string, tunnels: seq<Tunnel>)
    ensures PeersOf(Include(helperPath, tunnels)) == Image(PeerLine, tunnels)
  {
    var w, p := WiringBlock(helperPath), PeerDirectives(tunnels);
    NoPeersOf(w);
    NoPeersOf(CLOSED_BLOCK);
    PeersOfTunnels(tunnels);
    PeersOfConcat(w, p);
    PeersOfConcat(w + p, CLOSED_BLOCK);
  }

  /** The directive is a parent at the profile's own address, under its own name, that is never queried. */
  predicate PeerFor(p: Profile, d: Directive) {
    && d.CachePeer? && d.kind == "parent" && d.icpPort == 0 && d.options == ["no-query", "name=" + d.name]
    && Dials(p, d.name, d.host, d.port)
  }

  /** Reading back the include of a compile, peer by peer: some arrangement of the enabled profiles by name,
      each with the peer that its own name, host override and port call for. */
  lemma RenderedPeersExactly(prose: Prose, helperPath: string, profiles: seq<Profile>) returns (ps: seq<Profile>)
    requires ProseOk(prose) && HelperOk(helperPath) && forall p :: p in profiles && p.enabled ==> HostIsWord(p)
    ensures forall p :: multiset(ps)[p] == if p.enabled then multiset(profiles)[p] else 0
    ensures Sorted(ps, NameLe)
    ensures var peers := PeersOf(ReadConfig(RenderInclude(prose, helperPath, Tunnels(profiles))));
            |peers| == |ps| && forall i :: 0 <= i < |ps| ==> PeerFor(ps[i], peers[i])
  {
    ps := TunnelsDial(profiles);
    CompiledIncludeReadsBackExactly(prose, helperPath, profiles);
    PeersOfInclude(helperPath, Tunnels(profiles));
  }

  // ---------------------------------------------------------------- from request to poll

  /** The lines of a helper's input are the requests of a run, by number, and the bus answers as the run
      does. A line without a host never reaches the bus. */
  ghost predicate Serves(s: Pipeline.System, lines: seq<string>, bus: Acl.Oracle) {
    forall k :: 0 <= k < |lines| && Acl.ParseLine(lines[k]).host != "" ==>
      var host := Acl.ParseLine(lines[k]).host;
      k in s.requests && s.requests[k].Answered? && s.requests[k].host == host && bus(k, host) == s.requests[k].verdict
  }

  /** From request line to reply line to poll: take any run of the pipeline, and any input whose lines are
      its requests, with no newline in a tag. If Squid reads the k-th line of the helper's output as allowed
      with tag `u`, then the k-th input line held a host that was allowed with some tag; `u` is what Squid
      makes of it, and it is that tag if the tag stands for itself; the host was routed to that tunnel, and
      a timely poll had proved the tunnel up. */
  lemma EveryOkLineIsJustified(
    c: Pipeline.Config, start: Instant, steps: seq<Pipeline.Step>, input: string, bus: Acl.Oracle, k: nat, u: string)
    requires Serves(Pipeline.Exec(c, Pipeline.Start(start), steps), Acl.Lines(input), bus)
    requires Acl.OnAll(bus, Acl.Lines(input), Acl.LineTag) && k < |Acl.Lines(input)|
    requires var replies := Split(Acl.Transcript(Acl.Bodies(bus, Acl.Lines(input))), '\n');
             k < |replies| && ReadReply(replies[k]).1 == Allow(u)
    ensures var s := Pipeline.Exec(c, Pipeline.Start(start), steps);
            var host := Acl.ParseLine(Acl.Lines(input)[k]).host;
            && k in s.requests && s.requests[k].Answered? && s.requests[k].host == host != ""
            && s.requests[k].verdict.Allow?
            && var tag := s.requests[k].verdict.tag;
               && u == ReadTag(tag) && (PlainTag(tag) ==> u == tag)
               && Pipeline.Seeded(s.seeds, s.requests[k].since, host, tag)
               && Pipeline.Justified(c, s.records, tag, s.requests[k].at)
  {
    var line := Acl.Lines(input)[k];
    Acl.EveryLineReads(input, bus, k);
    assert Acl.AsRead(Acl.VerdictAt(bus, k, line)) == Allow(u);
    var host := Acl.ParseLine(line).host;
    assert host != "" && bus(k, host).Allow?;
    TagReadsBackExactly(bus(k, host).tag);
    Pipeline.EveryAllowIsJustified(c, start, steps, k);
  }

  /** The compiles of these tables seeded every route of the run. */
  ghost predicate SeededFrom(seeds: seq<Route>, cats: seq<Catalog>) {
    forall r :: r in seeds ==> exists i :: 0 <= i < |cats| && r in RoutesOf(cats[i], cats[i].targets)
  }

  /** From the tables to the answers of a run: if every route was seeded by a compile of one of these
      tables, then an allowed host was served through the answered profile by one of them, and a timely
      poll had proved that profile's tunnel up. */
  lemma EveryAllowIsServed(
    c: Pipeline.Config, start: Instant, steps: seq<Pipeline.Step>, r: nat, cats: seq<Catalog>)
    requires forall i :: 0 <= i < |cats| ==> CatalogOk(cats[i])
    requires var s := Pipeline.Exec(c, Pipeline.Start(start), steps);
             SeededFrom(s.seeds, cats) && r in s.requests && s.requests[r].Answered? && s.requests[r].verdict.Allow?
    ensures var s := Pipeline.Exec(c, Pipeline.Start(start), steps);
            var x := s.requests[r];
            && (exists i :: 0 <= i < |cats| && ServedBy(cats[i], x.host, x.verdict.tag))
            && Pipeline.Justified(c, s.records, x.verdict.tag, x.at)
  {
    var s := Pipeline.Exec(c, Pipeline.Start(start), steps);
    var x := s.requests[r];
    Pipeline.EveryAllowIsJustified(c, start, steps, r);
    var n: nat :| x.since <= n && Pipeline.RouteAfter(s.seeds, n, x.host, x.verdict.tag);
    var route := LastFor(s.seeds[..n], x.host).value;
    assert route in s.seeds[..n] && s.seeds[..n] <= s.seeds;
    assert route in s.seeds;
    var i :| 0 <= i < |cats| && route in RoutesOf(cats[i], cats[i].targets);
    RouteMeansServed(cats[i], route);
  }

  lemma RouteMeansServed(cat: Catalog, route: Route)
    requires CatalogOk(cat) && route in RoutesOf(cat, cat.targets)
    ensures ServedBy(cat, route.target, route.tunnel)
  {
    RoutedExactly(cat, route.target, route.tunnel);
    var last := LastFor(RoutesOf(cat, cat.targets), route.target);
    OneRoutePerHost(cat, route, last.value);
  }

  /** The helper heard this question as a request of the run, and answered as the run did. */
  predicate HeardAs(s: Pipeline.System, asked: Consult) {
    && asked.request in s.requests && s.requests[asked.request].Answered?
    && |asked.key| == 1 && s.requests[asked.request].host == TrimSpace(asked.key[0])
    && asked.ok == s.requests[asked.request].verdict.Allow?
  }

  /** Behind the helper's path stands the helper of this run. What other commands say does not matter. */
  ghost predicate Heard(s: Pipeline.System, helperPath: string, log: seq<Consult>) {
    forall k :: 0 <= k < |log| && log[k].command == [HelperPath(helperPath)] ==> HeardAs(s, log[k])
  }

  /** The request was allowed in the run: its host was routed to the answered tunnel, and a poll recent enough
      had proved that tunnel up. */
  ghost predicate Proven(c: Pipeline.Config, s: Pipeline.System, r: nat, host: string) {
    && r in s.requests && s.requests[r].Answered? && s.requests[r].verdict.Allow?
    && s.requests[r].host == TrimSpace(host)
    && Pipeline.Seeded(s.seeds, s.requests[r].since, s.requests[r].host, s.requests[r].verdict.tag)
    && Pipeline.Justified(c, s.records, s.requests[r].verdict.tag, s.requests[r].at)
  }

  /** Nothing leaves unproven. Take any run of the pipeline, anything that helpers were asked, and any base
      configuration around the include: if Squid finds `tun_up` as its own configuration says it does, and
      lets the request out, then it leaves through a rendered peer, and its own Host header was allowed in
      the run, on a tunnel that a poll recent enough had proved up. */
  lemma NothingLeavesUnproven(
    c: Pipeline.Config, start: Instant, steps: seq<Pipeline.Step>, log: seq<Consult>, r: nat, headers: Headers,
    now: Instant, before: seq<Directive>, helperPath: string, tunnels: seq<Tunnel>, after: seq<Directive>,
    env: Acls, exit: Exit)
    requires BaseOk(before, after) && Unwired(before) && Unwired(after)
    requires Heard(Pipeline.Exec(c, Pipeline.Start(start), steps), helperPath, log)
    requires var ds := before + Include(helperPath, tunnels) + after;
             MayBe(ds, "tun_up", log, r, headers, now, env("tun_up")) && CanLeave(ds, env, exit)
    ensures exit.Via? && Rendered(tunnels, exit.name)
    ensures Proven(c, Pipeline.Exec(c, Pipeline.Start(start), steps), r, headers("Host"))
  {
    LeavesExactly(before, helperPath, tunnels, after, env, exit);
    TunUpIsTheHelpersAnswer(before, helperPath, tunnels, after, log, r, headers, now, true);
    var k :| 0 <= k < |log| && AskedFor(log[k], helperPath, r, headers("Host"), true);
    assert HeardAs(Pipeline.Exec(c, Pipeline.Start(start), steps), log[k]);
    Pipeline.EveryAllowIsJustified(c, start, steps, r);
  }

  /** The same from the tables and the text: splice the include that a compile renders into any base text that
      routes nothing and leaves its names alone. A request that Squid lets out leaves through the peer of an
      enabled profile, and was proven. */
  lemma CompiledTextLeavesNothingUnproven(
    c: Pipeline.Config, start: Instant, steps: seq<Pipeline.Step>, log: seq<Consult>, r: nat, headers: Headers,
    now: Instant, before: string, prose: Prose, helperPath: string, profiles: seq<Profile>, after: string,
    env: Acls, exit: Exit)
    requires ProseOk(prose) && HelperOk(helperPath) && forall p :: p in profiles && p.enabled ==> HostIsWord(p)
    requires Closed(before) && BaseOk(ReadConfig(before), ReadConfig(after))
    requires Unwired(ReadConfig(before)) && Unwired(ReadConfig(after))
    requires Heard(Pipeline.Exec(c, Pipeline.Start(start), steps), helperPath, log)
    requires var rendered := RenderInclude(prose, helperPath, Tunnels(profiles));
             var ds := ReadConfig(before + ['\n'] + (rendered + ['\n'] + after));
             MayBe(ds, "tun_up", log, r, headers, now, env("tun_up")) && CanLeave(ds, env, exit)
    ensures exists p :: p in profiles && p.enabled && exit == Via("tun_" + Sanitized(p.name))
    ensures Proven(c, Pipeline.Exec(c, Pipeline.Start(start), steps), r, headers("Host"))
  {
    var tunnels := Tunnels(profiles);
    CompiledTunnelsOk(profiles);
    RenderedIsClosed(prose, helperPath, tunnels);
    AssembledReads(before, RenderInclude(prose, helperPath, tunnels), after);
    IncludeReadsBack(prose, helperPath, tunnels);
    NothingLeavesUnproven(c, start, steps, log, r, headers, now, ReadConfig(before), helperPath, tunnels,
                          ReadConfig(after), env, exit);
    RenderedIsEnabled(profiles, exit.name);
  }

  lemma CompiledTunnelsOk(profiles: seq<Profile>)
    requires forall p :: p in profiles && p.enabled ==> HostIsWord(p)
    ensures forall i :: 0 <= i < |Tunnels(profiles)| ==> TunnelOk(Tunnels(profiles)[i])
  {
    TunnelsAreEnabledProfiles(profiles);
    forall i | 0 <= i < |Tunnels(profiles)| ensures TunnelOk(Tunnels(profiles)[i]) {
      assert Tunnels(profiles)[i] in Tunnels(profiles);
      var p :| p in profiles && p.enabled && Tunnels(profiles)[i] == TunnelOf(p);
      TunnelWords(p);
    }
  }

  lemma RenderedIsEnabled(profiles: seq<Profile>, name: string)
    requires Rendered(Tunnels(profiles), name)
    ensures exists p :: p in profiles && p.enabled && name == "tun_" + Sanitized(p.name)
  {
    TunnelsAreEnabledProfiles(profiles);
    var i :| 0 <= i < |Tunnels(profiles)| && Tunnels(profiles)[i].name == name;
    assert Tunnels(profiles)[i] in Tunnels(profiles);
    var p :| p in profiles && p.enabled && Tunnels(profiles)[i] == TunnelOf(p);
    TunnelDials(p);
  }

  function PeerName(profile: string): string { "tun_" + Sanitized(profile) }

  /** The tag in the answer is meant to name the tunnel that carries the request. The include does not
      look at it: an admitted request is confined to the peer of its tag exactly when no peer of another
      name is rendered. */
  lemma TagConfinesExactly(
    before: seq<Directive>, helperPath: string, tunnels: seq<Tunnel>, after: seq<Directive>, env: Acls, tag: string)
    requires BaseOk(before, after) && env("tun_up")
    requires Admitted(before + Include(helperPath, tunnels) + after, env)
    ensures var ds := before + Include(helperPath, tunnels) + after;
            (forall exit :: CanLeave(ds, env, exit) ==> exit == Via(PeerName(tag))) <==>
            forall i :: 0 <= i < |tunnels| ==> tunnels[i].name == PeerName(tag)
  {
    var ds := before + Include(helperPath, tunnels) + after;
    forall exit { LeavesExactly(before, helperPath, tunnels, after, env, exit); }
    forall i | 0 <= i < |tunnels| ensures CanLeave(ds, env, Via(tunnels[i].name)) {
      assert Rendered(tunnels, tunnels[i].name);
    }
    if i :| 0 <= i < |tunnels| && tunnels[i].name != PeerName(tag) {
      assert CanLeave(ds, env, Via(tunnels[i].name));
    }
  }
}
