/** Compilation preserves meaning: what the helper answers after a compile and seed, said in terms of the
    tables alone. */
module Meaning {
  import opened Text
  import opened Vpn
  import opened Bus
  import opened Decide
  import opened Store
  import opened Routing

  /** The tables' own constraints: unique profile ids, unique target aliases, unique tier keys. */
  ghost predicate CatalogOk(cat: Catalog) {
    && IdsUnique(cat.profiles)
    && (forall i, j :: 0 <= i < j < |cat.targets| ==> cat.targets[i].publicAlias != cat.targets[j].publicAlias)
    && TableOk(cat.tiers)
  }

  /** The profile id that is first in line for a target: that of its lowest tier row, or its own when it
      has no tier rows. */
  ghost predicate FirstInLine(cat: Catalog, tgt: Target, profileId: string) {
    if exists row :: row in cat.tiers && row.targetId == tgt.id then
      exists row ::
        && row in cat.tiers && row.targetId == tgt.id && row.profileId == profileId
        && forall other :: other in cat.tiers && other.targetId == tgt.id ==> row.tier <= other.tier
    else profileId != "" && profileId == tgt.profileId
  }

  ghost predicate PrimaryIs(cat: Catalog, tgt: Target, name: string) {
    name != "" && exists p :: p in cat.profiles && p.name == name && FirstInLine(cat, tgt, p.id)
  }

  ghost predicate Enabled(cat: Catalog, name: string) {
    exists p :: p in cat.profiles && p.enabled && p.name == name
  }

  /** Host `h` is served through profile `name`. */
  ghost predicate ServedBy(cat: Catalog, h: string, name: string) {
    exists t :: t in cat.targets && t.enabled && t.publicAlias == h && PrimaryIs(cat, t, name) && Enabled(cat, name)
  }

  lemma FirstInLineIsFirstTier(cat: Catalog, tgt: Target, profileId: string)
    requires TableOk(cat.tiers)
    ensures var chain := ListTiers(cat.tiers, tgt.id);
            FirstInLine(cat, tgt, profileId) <==>
              if |chain| > 0 then profileId == chain[0].profileId else profileId != "" && profileId == tgt.profileId
  {
    var chain := ListTiers(cat.tiers, tgt.id);
    ListTiersAscends(cat.tiers, tgt.id);
    if |chain| > 0 {
      assert chain[0] in chain;
      forall other | other in cat.tiers && other.targetId == tgt.id ensures chain[0].tier <= other.tier {
        assert other in chain;
        var k :| 0 <= k < |chain| && chain[k] == other;
      }
      if row :| && row in cat.tiers && row.targetId == tgt.id
                && forall other :: other in cat.tiers && other.targetId == tgt.id ==> row.tier <= other.tier {
        assert row in chain && row.tier <= chain[0].tier;
        var k :| 0 <= k < |chain| && chain[k] == row;
        assert row == chain[0];
      }
    }
  }

  /** The compiler finds exactly the primary profile. */
  lemma PrimaryTunnelIs(cat: Catalog, tgt: Target, name: string)
    requires CatalogOk(cat)
    ensures var r := PrimaryTunnel(tgt, ListTiers(cat.tiers, tgt.id), NamesById(cat.profiles));
            (r.Some? && r.value.0 == name) <==> PrimaryIs(cat, tgt, name)
  {
    var chain, names := ListTiers(cat.tiers, tgt.id), NamesById(cat.profiles);
    var id := if |chain| > 0 then chain[0].profileId else tgt.profileId;
    NamesByIdHas(cat.profiles, id);
    forall p | p in cat.profiles
      ensures FirstInLine(cat, tgt, p.id) <==> p.id == id && (|chain| > 0 || id != "")
      ensures p.id in names && names[p.id] == p.name
    {
      FirstInLineIsFirstTier(cat, tgt, p.id);
    }
  }

  lemma PeerIsEnabled(cat: Catalog, name: string)
    ensures name in PeersByProfile(Tunnels(cat.profiles)) <==> Enabled(cat, name)
  {
    var tunnels := Tunnels(cat.profiles);
    PeersByProfileHas(tunnels, name);
    TunnelsAreEnabledProfiles(cat.profiles);
    if p :| p in cat.profiles && p.enabled && p.name == name {
      assert TunnelOf(p) in tunnels && TunnelOf(p).profile == name;
    }
  }

  lemma RouteOfIs(cat: Catalog, tgt: Target, name: string)
    requires CatalogOk(cat)
    ensures (RouteOf(cat, tgt).Some? && RouteOf(cat, tgt).value.tunnel == name)
       <==> tgt.enabled && PrimaryIs(cat, tgt, name) && Enabled(cat, name)
  {
    PrimaryTunnelIs(cat, tgt, name);
    PeerIsEnabled(cat, name);
  }

  lemma {:induction false} RoutesOfAre(cat: Catalog, targets: seq<Target>, r: Route)
    ensures r in RoutesOf(cat, targets) <==> exists t :: t in targets && RouteOf(cat, t) == Some(r)
  {
    if targets != [] {
      RoutesOfAre(cat, Front(targets), r);
      assert targets == Front(targets) + [Last(targets)];
      if r in RoutesOf(cat, Front(targets)) {
        var t :| t in Front(targets) && RouteOf(cat, t) == Some(r);
        assert t in targets;
      }
    }
  }

  /** Aliases are unique, so a host has at most one route. */
  lemma OneRoutePerHost(cat: Catalog, a: Route, b: Route)
    requires CatalogOk(cat) && a.target == b.target
    requires a in RoutesOf(cat, cat.targets) && b in RoutesOf(cat, cat.targets)
    ensures a == b
  {
    RoutesOfAre(cat, cat.targets, a);
    RoutesOfAre(cat, cat.targets, b);
    var s :| s in cat.targets && RouteOf(cat, s) == Some(a);
    var t :| t in cat.targets && RouteOf(cat, t) == Some(b);
    assert s.publicAlias == t.publicAlias;
  }

  lemma RoutedExactly(cat: Catalog, h: string, name: string)
    requires CatalogOk(cat)
    ensures var r := LastFor(RoutesOf(cat, cat.targets), h);
            (r.Some? && r.value.tunnel == name) <==> ServedBy(cat, h, name)
  {
    var rs := RoutesOf(cat, cat.targets);
    var r := LastFor(rs, h);
    if r.Some? {
      RoutesOfAre(cat, cat.targets, r.value);
      var t :| t in cat.targets && RouteOf(cat, t) == Some(r.value);
      RouteOfIs(cat, t, r.value.tunnel);
    }
    if t :| t in cat.targets && t.enabled && t.publicAlias == h && PrimaryIs(cat, t, name) && Enabled(cat, name) {
      RouteOfIs(cat, t, name);
      var x := RouteOf(cat, t).value;
      RoutesOfAre(cat, cat.targets, x);
      assert x in rs && x.target == h;
      OneRoutePerHost(cat, x, r.value);
    }
  }

  /** After a compile and seed into an empty store, the helper answers `OK tag=name` for `h` exactly when
      `h` is the alias of an enabled target whose primary profile is `name`, that profile is enabled, and
      its status reads up. */
  lemma CompilationPreservesMeaning(
    cat: Catalog, statuses: Statuses, now: Instant, maxAge: Duration, h: string, name: string)
    requires CatalogOk(cat)
    ensures VerdictFor(h, Routing.Seeded(map[], RoutesOf(cat, cat.targets)), statuses, now, maxAge) == Allow(name)
       <==> h != "" && ServedBy(cat, h, name) && FetchStatus(statuses, name, now, maxAge, false).state == Up
  {
    var rs := RoutesOf(cat, cat.targets);
    SeededHolds(map[], rs, h);
    RoutedExactly(cat, h, name);
    if LastFor(rs, h).Some? { RoutedExactly(cat, h, LastFor(rs, h).value.tunnel); }
  }

  /** Two route stores make the helper answer alike for `h`, whatever the tunnels' states. */
  ghost predicate SameAnswers(h: string, a: Routes, b: Routes) {
    forall statuses: Statuses, now: Instant, maxAge: Duration ::
      VerdictFor(h, a, statuses, now, maxAge) == VerdictFor(h, b, statuses, now, maxAge)
  }

  /** The tunnel that the helper asks for, if the store has a usable route for `h`. */
  function UsableTunnel(m: Routes, h: string): Option<string> {
    if h != "" && h in m && m[h].Json? && m[h].value.tunnel != "" then Some(m[h].value.tunnel) else None
  }

  /** Two stores make the helper answer alike, whatever the tunnels' states, exactly when they lead to the
      same tunnel or both to none. */
  lemma SameAnswersExactly(h: string, a: Routes, b: Routes)
    ensures SameAnswers(h, a, b) <==> UsableTunnel(a, h) == UsableTunnel(b, h)
  {
    if UsableTunnel(a, h) != UsableTunnel(b, h) {
      var u := if UsableTunnel(a, h).Some? then UsableTunnel(a, h).value else UsableTunnel(b, h).value;
      var statuses: Statuses := map[u := Cell(Json(ZERO_SNAPSHOT.(profile := u, state := Up)), None)];
      assert VerdictFor(h, a, statuses, 0, 0) != VerdictFor(h, b, statuses, 0, 0);
    }
  }

  /** The tunnel that a compile gives a host. */
  function CompiledTunnel(cat: Catalog, h: string): Option<string> {
    UsableTunnel(Routing.Seeded(map[], RoutesOf(cat, cat.targets)), h)
  }

  /** Seeding never deletes. On a store that already held routes the helper still answers for `h` as
      after a seed into an empty one, whatever the tunnels' states, exactly when the compile produced a
      route for `h` or the store held no usable one. */
  lemma StaleRoutesExactly(cat: Catalog, held: Routes, h: string)
    ensures SameAnswers(h, Routing.Seeded(held, RoutesOf(cat, cat.targets)),
                        Routing.Seeded(map[], RoutesOf(cat, cat.targets)))
       <==> h == "" || LastFor(RoutesOf(cat, cat.targets), h).Some? || UsableTunnel(held, h).None?
  {
    var rs := RoutesOf(cat, cat.targets);
    SeededHolds(held, rs, h);
    SeededHolds(map[], rs, h);
    SameAnswersExactly(h, Routing.Seeded(held, rs), Routing.Seeded(map[], rs));
  }

  /** Seeding stops at a failing write, so only the first `n` routes may have been written. The helper then
      answers for `h` as after a whole seed into an empty store, whatever the tunnels' states, exactly when
      the route for `h` is among them, or the store already led to the tunnel that the compile gives `h`,
      or both to none. */
  lemma PartialSeedExactly(cat: Catalog, held: Routes, n: nat, h: string)
    requires CatalogOk(cat) && n <= |RoutesOf(cat, cat.targets)|
    ensures SameAnswers(h, Routing.Seeded(held, RoutesOf(cat, cat.targets)[..n]),
                        Routing.Seeded(map[], RoutesOf(cat, cat.targets)))
       <==> LastFor(RoutesOf(cat, cat.targets)[..n], h).Some? || UsableTunnel(held, h) == CompiledTunnel(cat, h)
  {
    var rs := RoutesOf(cat, cat.targets);
    SeededHolds(held, rs[..n], h);
    SeededHolds(map[], rs, h);
    SameAnswersExactly(h, Routing.Seeded(held, rs[..n]), Routing.Seeded(map[], rs));
    var early, whole := LastFor(rs[..n], h), LastFor(rs, h);
    if early.Some? {
      assert early.value in rs[..n] && rs[..n] <= rs;
      assert early.value in rs;
      OneRoutePerHost(cat, early.value, whole.value);
    }
  }

  // ---------------------------------------------------------------- what a compile produces, entry by entry

  ghost predicate Tiered(cat: Catalog, tgt: Target) { exists row :: row in cat.tiers && row.targetId == tgt.id }

  /** The tier of a target's route: that of its lowest row, or 0 when it has no rows. */
  ghost predicate TierIs(cat: Catalog, tgt: Target, tier: int) {
    if Tiered(cat, tgt) then
      exists row ::
        && row in cat.tiers && row.targetId == tgt.id && row.tier == tier
        && forall other :: other in cat.tiers && other.targetId == tgt.id ==> row.tier <= other.tier
    else tier == 0
  }

  /** An enabled profile is the target's primary. */
  ghost predicate Routed(cat: Catalog, tgt: Target) {
    tgt.enabled && exists p :: p in cat.profiles && p.enabled && PrimaryIs(cat, tgt, p.name)
  }

  /** The route key and the SOCKS entry of a target: its alias and its address, over its primary profile. */
  ghost predicate Fits(cat: Catalog, tgt: Target, r: Route, d: DanteRoute) {
    && r.target == tgt.publicAlias && TierIs(cat, tgt, r.tier) && r.breakerState == "closed"
    && PrimaryIs(cat, tgt, r.tunnel)
    && d.targetCIDR == tgt.privateIP
    && exists p :: && p in cat.profiles && p.enabled && p.name == r.tunnel
                   && Dials(p, d.name, d.peerHost, d.peerPort)
  }

  lemma TierOfPrimary(cat: Catalog, tgt: Target)
    requires CatalogOk(cat)
    ensures var chain := ListTiers(cat.tiers, tgt.id);
            TierIs(cat, tgt, if |chain| > 0 then chain[0].tier else 0)
  {
    var chain := ListTiers(cat.tiers, tgt.id);
    ListTiersAscends(cat.tiers, tgt.id);
    if |chain| > 0 {
      assert chain[0] in chain;
      forall other | other in cat.tiers && other.targetId == tgt.id ensures chain[0].tier <= other.tier {
        assert other in chain;
        var k :| 0 <= k < |chain| && chain[k] == other;
      }
    }
  }

  /** The peer that a compile looks up by name is an enabled profile's. */
  lemma PeerDials(profiles: seq<Profile>, name: string)
    requires name in PeersByProfile(Tunnels(profiles))
    ensures var t := PeersByProfile(Tunnels(profiles))[name];
            exists p :: p in profiles && p.enabled && p.name == name && Dials(p, t.name, t.peerHost, t.peerPort)
  {
    PeerIsTunnel(Tunnels(profiles), name);
    TunnelsAreEnabledProfiles(profiles);
    var p :| p in profiles && p.enabled && PeersByProfile(Tunnels(profiles))[name] == TunnelOf(p);
    TunnelDials(p);
  }

  /** What a compile makes of one target. */
  ghost predicate FitOf(cat: Catalog, tgt: Target, rs: seq<Route>, ds: seq<DanteRoute>) {
    if Routed(cat, tgt) then |rs| == |ds| == 1 && Fits(cat, tgt, rs[0], ds[0]) else rs == [] && ds == []
  }

  lemma OneFits(cat: Catalog, tgt: Target)
    requires CatalogOk(cat)
    ensures FitOf(cat, tgt, RoutesOf(cat, [tgt]), DanteOf(cat, [tgt]))
  {
    var r := RouteOf(cat, tgt);
    assert Front([tgt]) == [];
    if r.Some? {
      RouteOfIs(cat, tgt, r.value.tunnel);
      PeerDials(cat.profiles, r.value.tunnel);
      TierOfPrimary(cat, tgt);
    }
    if Routed(cat, tgt) {
      var p :| p in cat.profiles && p.enabled && PrimaryIs(cat, tgt, p.name);
      RouteOfIs(cat, tgt, p.name);
    }
  }

  lemma OutputsGrow(cat: Catalog, targets: seq<Target>)
    requires targets != []
    ensures RoutesOf(cat, targets) == RoutesOf(cat, Front(targets)) + RoutesOf(cat, [Last(targets)])
    ensures DanteOf(cat, targets) == DanteOf(cat, Front(targets)) + DanteOf(cat, [Last(targets)])
  {
    assert Front([Last(targets)]) == [];
  }

  /** One route key and one SOCKS entry for each target with an enabled primary profile, in the targets'
      order, and no others. */
  ghost predicate CompiledAs(cat: Catalog, targets: seq<Target>, rs: seq<Route>, ds: seq<DanteRoute>) {
    if targets == [] then rs == [] && ds == []
    else if Routed(cat, Last(targets)) then
      && rs != [] && ds != [] && Fits(cat, Last(targets), Last(rs), Last(ds))
      && CompiledAs(cat, Front(targets), Front(rs), Front(ds))
    else CompiledAs(cat, Front(targets), rs, ds)
  }

  /** Everything that a compile says of its targets. */
  lemma {:induction false} CompiledExactly(cat: Catalog, targets: seq<Target>)
    requires CatalogOk(cat)
    ensures CompiledAs(cat, targets, RoutesOf(cat, targets), DanteOf(cat, targets))
  {
    if targets != [] {
      CompiledExactly(cat, Front(targets));
      OneFits(cat, Last(targets));
      OutputsGrow(cat, targets);
      Joined(RoutesOf(cat, Front(targets)), RoutesOf(cat, [Last(targets)]));
      Joined(DanteOf(cat, Front(targets)), DanteOf(cat, [Last(targets)]));
    }
  }

  lemma Joined<T>(a: seq<T>, b: seq<T>)
    requires |b| <= 1
    ensures if b == [] then a + b == a else Front(a + b) == a && Last(a + b) == b[0]
  {
  }

  // ---------------------------------------------------------------- the PAC file

  lemma {:induction false} AliasesExactly(targets: seq<Target>, a: string)
    ensures a in Aliases(targets) <==> exists t :: t in targets && t.enabled && t.publicAlias == a
  {
    if targets != [] {
      AliasesExactly(Front(targets), a);
      assert targets == Front(targets) + [Last(targets)];
      if a in Aliases(Front(targets)) {
        var t :| t in Front(targets) && t.enabled && t.publicAlias == a;
        assert t in targets;
      }
    }
  }

  /** The compiled PAC file sends a host to the proxy exactly when an enabled target's alias matches it, and
      every other host directly. */
  lemma PacSendsExactly(targets: seq<Target>, proxy: string, host: string)
    ensures Pac.FindProxy(Pac.RenderPac(proxy, Aliases(targets)), host)
         == if exists t :: t in targets && t.enabled && Pac.ShExpMatch(host, t.publicAlias)
            then (if proxy == "" then "PROXY proxy-squid:34128" else proxy) else "DIRECT"
  {
    Pac.RenderedDenotes(proxy, Aliases(targets), host);
    if Pac.Covered(Aliases(targets), host) {
      var i :| 0 <= i < |Aliases(targets)| && Pac.ShExpMatch(host, Aliases(targets)[i]);
      AliasesExactly(targets, Aliases(targets)[i]);
    }
    if t :| t in targets && t.enabled && Pac.ShExpMatch(host, t.publicAlias) {
      AliasesExactly(targets, t.publicAlias);
      Pac.CoverWitness(Aliases(targets), t.publicAlias, host);
    }
  }

  lemma {:induction false} RouteTargetsAreAliases(cat: Catalog, targets: seq<Target>)
    ensures forall r :: r in RoutesOf(cat, targets) ==> r.target in Aliases(targets)
  {
    if targets != [] { RouteTargetsAreAliases(cat, Front(targets)); }
  }

  /** Every seeded route's target goes to the proxy in the compiler's PAC file. */
  lemma RoutedHostsUseTheProxy(cat: Catalog, proxy: string, r: Route)
    requires r in RoutesOf(cat, cat.targets)
    ensures Pac.FindProxy(Pac.RenderPac(proxy, Aliases(cat.targets)), r.target) == Pac.ProxyOr(proxy)
  {
    RouteTargetsAreAliases(cat, cat.targets);
    Pac.GlobMatchesItself(r.target);
    Pac.CoverWitness(Aliases(cat.targets), r.target, r.target);
    Pac.RenderedDenotes(proxy, Aliases(cat.targets), r.target);
  }
}
