/** The config compiler (control-plane/internal/routing/routing.go) and the route seeding of its command
    (control-plane/cmd/compiler/main.go): from the tables to tunnels, peer names, artifacts and route
    keys. */
module Routing {
  import opened Text
  import opened Vpn
  import opened Bus
  import opened Sorting
  import opened Store
  import opened Names
  import opened Squid
  import Pac

  const DEFAULT_PEER_PORT := 8888

  datatype Catalog = Catalog(profiles: seq<Profile>, targets: seq<Target>, tiers: seq<TierRow>)

  datatype DanteRoute = DanteRoute(name: string, targetCIDR: string, peerHost: string, peerPort: nat)

  datatype Compiled = Compiled(
    squidInclude: string, dante: seq<DanteRoute>, pac: seq<Pac.Entry>, routes: seq<Route>)

  /** Which reads of the store fail. */
  datatype Faults = Faults(profiles: bool, targets: bool, tiersOf: set<string>)

  datatype Engine = Engine(prose: Prose, helperPath: string, pacProxy: string)

  // ---------------------------------------------------------------- tunnels

  function PeerEndpoint(p: Profile): (string, nat) {
    var host := if p.config.host != "" then p.config.host else "gluetun-" + Sanitized(p.name);
    var port := match p.config.port
      case NoPort => DEFAULT_PEER_PORT
      case NumberPort(v) => if v > 0.0 then v.Floor else DEFAULT_PEER_PORT
      case TextPort(s) =>
        var n := ParseInt64(s);
        if n.Some? && n.value > 0 then n.value else DEFAULT_PEER_PORT;
    (host, port)
  }

  /** The port is the configured one if that is a positive number, in either JSON form, and else 8888. A
      fraction below one counts as positive and is cut to port 0. */
  lemma PeerPortExactly(p: Profile, n: nat)
    requires 0 < n <= MAX_DURATION
    ensures PeerEndpoint(p).1 == 0 <==> p.config.port.NumberPort? && 0.0 < p.config.port.v < 1.0
    ensures p.config.port == TextPort(Decimal(n)) || p.config.port == NumberPort(n as real) ==> PeerEndpoint(p).1 == n
    ensures p.config.port.NoPort? || (p.config.port.NumberPort? && p.config.port.v <= 0.0) ==> PeerEndpoint(p).1 == 8888
    ensures p.config.port.TextPort? && (ParseInt64(p.config.port.s).None? || ParseInt64(p.config.port.s).value <= 0) ==>
              PeerEndpoint(p).1 == 8888
  {
    ParseOfDecimal(n, MAX_DURATION + 1);
    assert IsDigit(Decimal(n)[0]);
  }

  function TunnelOf(p: Profile): Tunnel {
    Tunnel(p.name, "tun_" + Sanitized(p.name), PeerEndpoint(p).0, PeerEndpoint(p).1)
  }

  /** The port that a profile asks for: its number, cut down to a whole one, or the number that its text
      spells, if that is positive, and else 8888. */
  predicate PortIs(port: PortValue, n: nat) {
    match port
    case NoPort => n == 8888
    case NumberPort(v) => if v > 0.0 then n as real <= v < n as real + 1.0 else n == 8888
    case TextPort(s) => match ParseInt64(s) case Some(k) => n == (if k > 0 then k else 8888) case None => n == 8888
  }

  /** A peer of this name at this address is the profile's. */
  predicate Dials(p: Profile, name: string, host: string, port: nat) {
    && name == "tun_" + Sanitized(p.name)
    && host == (if p.config.host == "" then "gluetun-" + Sanitized(p.name) else p.config.host)
    && PortIs(p.config.port, port)
  }

  lemma TunnelDials(p: Profile)
    ensures Dials(p, TunnelOf(p).name, TunnelOf(p).peerHost, TunnelOf(p).peerPort)
  {
  }

  predicate ProfileLe(a: Tunnel, b: Tunnel) { StringLe(a.profile, b.profile) }

  function EnabledTunnels(profiles: seq<Profile>): seq<Tunnel> {
    if profiles == [] then []
    else EnabledTunnels(Front(profiles)) + if Last(profiles).enabled then [TunnelOf(Last(profiles))] else []
  }

  function Tunnels(profiles: seq<Profile>): seq<Tunnel> { Sort(EnabledTunnels(profiles), ProfileLe) }

  method ResolveTunnels(profiles: seq<Profile>) returns (out: seq<Tunnel>)
    ensures out == Tunnels(profiles)
  {
    out := [];
    for i := 0 to |profiles|
      invariant out == EnabledTunnels(profiles[..i])
    {
      assert Front(profiles[..i + 1]) == profiles[..i];
      var p := profiles[i];
      if !p.enabled { continue; }
      var name := SanitizeToken(p.name);
      var endpoint := PeerEndpoint(p);
      out := out + [Tunnel(p.name, "tun_" + name, endpoint.0, endpoint.1)];
    }
    assert profiles[..|profiles|] == profiles;
    out := Sort(out, ProfileLe);
  }

  lemma ProfileLeIsTotalOrder()
    ensures TotalOrder(ProfileLe)
  {
    forall x: Tunnel, y: Tunnel ensures ProfileLe(x, y) || ProfileLe(y, x) { StringLeTotal(x.profile, y.profile); }
    forall x: Tunnel, y: Tunnel, z: Tunnel | ProfileLe(x, y) && ProfileLe(y, z) ensures ProfileLe(x, z) {
      StringLeTransitive(x.profile, y.profile, z.profile);
    }
  }

  lemma {:induction false} EnabledTunnelsAre(profiles: seq<Profile>)
    ensures forall t :: t in EnabledTunnels(profiles) <==> exists p :: p in profiles && p.enabled && t == TunnelOf(p)
  {
    if profiles != [] {
      EnabledTunnelsAre(Front(profiles));
      assert profiles == Front(profiles) + [Last(profiles)];
      forall t ensures t in EnabledTunnels(profiles) <==> exists p :: p in profiles && p.enabled && t == TunnelOf(p) {
        if t in EnabledTunnels(Front(profiles)) {
          var p :| p in Front(profiles) && p.enabled && t == TunnelOf(p);
          assert p in profiles;
        }
      }
    }
  }

  /** The tunnels are the enabled profiles, in the order of their names. */
  lemma TunnelsAreEnabledProfiles(profiles: seq<Profile>)
    ensures Sorted(Tunnels(profiles), ProfileLe)
    ensures multiset(Tunnels(profiles)) == multiset(EnabledTunnels(profiles))
    ensures forall t :: t in Tunnels(profiles) <==> exists p :: p in profiles && p.enabled && t == TunnelOf(p)
  {
    ProfileLeIsTotalOrder();
    SortSorts(EnabledTunnels(profiles), ProfileLe);
    EnabledTunnelsAre(profiles);
  }

  predicate NameLe(a: Profile, b: Profile) { StringLe(a.name, b.name) }

  function EnabledProfiles(profiles: seq<Profile>): seq<Profile> {
    if profiles == [] then []
    else EnabledProfiles(Front(profiles)) + if Last(profiles).enabled then [Last(profiles)] else []
  }

  lemma {:induction false} EnabledProfilesCount(profiles: seq<Profile>, p: Profile)
    ensures multiset(EnabledProfiles(profiles))[p] == if p.enabled then multiset(profiles)[p] else 0
  {
    if profiles != [] {
      EnabledProfilesCount(Front(profiles), p);
      assert profiles == Front(profiles) + [Last(profiles)];
    }
  }

  lemma {:induction false} EnabledTunnelsImage(profiles: seq<Profile>)
    ensures EnabledTunnels(profiles) == Image(TunnelOf, EnabledProfiles(profiles))
  {
    if profiles != [] { EnabledTunnelsImage(Front(profiles)); }
  }

  lemma NameLeIsTotalOrder()
    ensures TotalOrder(NameLe) && Carries(TunnelOf, NameLe, ProfileLe)
  {
    forall x: Profile, y: Profile ensures NameLe(x, y) || NameLe(y, x) { StringLeTotal(x.name, y.name); }
    forall x: Profile, y: Profile, z: Profile | NameLe(x, y) && NameLe(y, z) ensures NameLe(x, z) {
      StringLeTransitive(x.name, y.name, z.name);
    }
    forall x, y ensures NameLe(x, y) <==> ProfileLe(TunnelOf(x), TunnelOf(y)) {}
  }

  lemma TunnelsImage(profiles: seq<Profile>)
    ensures var ps := Sort(EnabledProfiles(profiles), NameLe);
            && Tunnels(profiles) == Image(TunnelOf, ps)
            && Sorted(ps, NameLe) && multiset(ps) == multiset(EnabledProfiles(profiles))
  {
    NameLeIsTotalOrder();
    SortSorts(EnabledProfiles(profiles), NameLe);
    EnabledTunnelsImage(profiles);
    SortCarries(TunnelOf, EnabledProfiles(profiles), NameLe, ProfileLe);
  }

  /** The tunnels, one by one: some arrangement of the enabled profiles by name, each with its own address. */
  lemma TunnelsDial(profiles: seq<Profile>) returns (ps: seq<Profile>)
    ensures forall p :: multiset(ps)[p] == if p.enabled then multiset(profiles)[p] else 0
    ensures Sorted(ps, NameLe) && |ps| == |Tunnels(profiles)|
    ensures forall i :: 0 <= i < |ps| ==>
              var t := Tunnels(profiles)[i]; t.profile == ps[i].name && Dials(ps[i], t.name, t.peerHost, t.peerPort)
  {
    ps := Sort(EnabledProfiles(profiles), NameLe);
    TunnelsImage(profiles);
    forall p ensures multiset(ps)[p] == if p.enabled then multiset(profiles)[p] else 0 {
      EnabledProfilesCount(profiles, p);
    }
    forall i | 0 <= i < |ps|
      ensures var t := Tunnels(profiles)[i]; t.profile == ps[i].name && Dials(ps[i], t.name, t.peerHost, t.peerPort)
    {
      TunnelDials(ps[i]);
    }
  }

  predicate NamesUnique(profiles: seq<Profile>) {
    forall i, j :: 0 <= i < j < |profiles| ==> profiles[i].name != profiles[j].name
  }

  lemma {:induction false} EnabledTunnelsWithout(profiles: seq<Profile>, i: nat)
    requires i < |profiles|
    ensures multiset(EnabledTunnels(profiles))
         == multiset(EnabledTunnels(profiles[..i] + profiles[i + 1..])) + multiset(EnabledTunnels([profiles[i]]))
  {
    var rest := profiles[..i] + profiles[i + 1..];
    assert Front([profiles[i]]) == [];
    if i == |profiles| - 1 {
      assert rest == Front(profiles);
    } else {
      assert Front(rest) == Front(profiles)[..i] + Front(profiles)[i + 1..] && Last(rest) == Last(profiles);
      EnabledTunnelsWithout(Front(profiles), i);
    }
  }

  lemma {:induction false} EnabledTunnelsIgnoreOrder(a: seq<Profile>, b: seq<Profile>)
    requires multiset(a) == multiset(b)
    ensures multiset(EnabledTunnels(a)) == multiset(EnabledTunnels(b))
  {
    if a == [] {
      assert |multiset(b)| == 0;
    } else {
      var i := SameWithout(a, b);
      EnabledTunnelsIgnoreOrder(Front(a), b[..i] + b[i + 1..]);
      EnabledTunnelsWithout(b, i);
      assert Front([b[i]]) == [];
    }
  }

  lemma SameNameSameProfile(profiles: seq<Profile>, p: Profile, q: Profile)
    requires NamesUnique(profiles) && p in profiles && q in profiles && p.name == q.name
    ensures p == q
  {
    var i :| 0 <= i < |profiles| && profiles[i] == p;
    var j :| 0 <= j < |profiles| && profiles[j] == q;
  }

  lemma SameNameSameTunnel(profiles: seq<Profile>, t: Tunnel, u: Tunnel)
    requires NamesUnique(profiles)
    requires exists p :: p in profiles && p.enabled && t == TunnelOf(p)
    requires exists p :: p in profiles && p.enabled && u == TunnelOf(p)
    requires ProfileLe(t, u) && ProfileLe(u, t)
    ensures t == u
  {
    var p :| p in profiles && p.enabled && t == TunnelOf(p);
    var q :| q in profiles && q.enabled && u == TunnelOf(q);
    StringLeTotal(t.profile, u.profile);
    SameNameSameProfile(profiles, p, q);
  }

  lemma TunnelsAreAntisymmetric(profiles: seq<Profile>)
    requires NamesUnique(profiles)
    ensures Antisymmetric(Tunnels(profiles), ProfileLe)
  {
    var ts := Tunnels(profiles);
    TunnelsAreEnabledProfiles(profiles);
    forall i, j | 0 <= i < |ts| && 0 <= j < |ts| && ProfileLe(ts[i], ts[j]) && ProfileLe(ts[j], ts[i])
      ensures ts[i] == ts[j]
    {
      assert ts[i] in ts && ts[j] in ts;
      SameNameSameTunnel(profiles, ts[i], ts[j]);
    }
  }

  /** Names are unique in the table, so the order in which it lists its profiles does not matter. */
  lemma TunnelsIgnoreOrder(a: seq<Profile>, b: seq<Profile>)
    requires multiset(a) == multiset(b) && NamesUnique(a)
    ensures Tunnels(a) == Tunnels(b)
  {
    EnabledTunnelsIgnoreOrder(a, b);
    TunnelsAreEnabledProfiles(a);
    TunnelsAreEnabledProfiles(b);
    TunnelsAreAntisymmetric(a);
    ProfileLeIsTotalOrder();
    SortedPermutationIsUnique(Tunnels(a), Tunnels(b), ProfileLe);
  }

  predicate PeerNamesDiffer(tunnels: seq<Tunnel>) {
    forall i, j :: 0 <= i < j < |tunnels| ==> tunnels[i].name != tunnels[j].name
  }

  /** No two enabled profiles have names that come out alike. */
  predicate NoneAlike(profiles: seq<Profile>) {
    forall i, j :: 0 <= i < j < |profiles| && profiles[i].enabled && profiles[j].enabled ==>
      !Alike(profiles[i].name, profiles[j].name)
  }

  lemma DifferingSurvives(s: seq<Tunnel>, t: seq<Tunnel>)
    requires multiset(s) == multiset(t) && PeerNamesDiffer(t)
    ensures PeerNamesDiffer(s)
  {
    forall i, j | 0 <= i < j < |s| ensures s[i].name != s[j].name {
      var k, l := PairSurvives(s, t, i, j);
      assert k < l || l < k;
    }
  }

  lemma SameTunnelName(p: Profile, q: Profile)
    ensures TunnelOf(p).name == TunnelOf(q).name <==> Alike(p.name, q.name)
  {
    assert TunnelOf(p).name[4..] == Sanitized(p.name) && TunnelOf(q).name[4..] == Sanitized(q.name);
    PeerNamesCollideExactly(p.name, q.name);
  }

  /** Some enabled profile among these comes out like `q`. */
  predicate OneLike(profiles: seq<Profile>, q: Profile) {
    exists i :: 0 <= i < |profiles| && profiles[i].enabled && Alike(profiles[i].name, q.name)
  }

  lemma {:induction false} OneLikeIsRendered(profiles: seq<Profile>, q: Profile)
    ensures Rendered(EnabledTunnels(profiles), TunnelOf(q).name) <==> OneLike(profiles, q)
  {
    var ts := EnabledTunnels(profiles);
    EnabledTunnelsAre(profiles);
    if Rendered(ts, TunnelOf(q).name) {
      var i :| 0 <= i < |ts| && ts[i].name == TunnelOf(q).name;
      assert ts[i] in ts;
      var p :| p in profiles && p.enabled && ts[i] == TunnelOf(p);
      SameTunnelName(p, q);
      var j :| 0 <= j < |profiles| && profiles[j] == p;
    }
    if OneLike(profiles, q) {
      var i :| 0 <= i < |profiles| && profiles[i].enabled && Alike(profiles[i].name, q.name);
      SameTunnelName(profiles[i], q);
      assert TunnelOf(profiles[i]) in ts;
    }
  }

  lemma NamesDifferGrows(ts: seq<Tunnel>, t: Tunnel)
    ensures PeerNamesDiffer(ts + [t]) <==> PeerNamesDiffer(ts) && !Rendered(ts, t.name)
  {
    var us := ts + [t];
    assert us[|ts|] == t && forall i :: 0 <= i < |ts| ==> us[i] == ts[i];
    if PeerNamesDiffer(us) {
      forall i, j | 0 <= i < j < |ts| ensures ts[i].name != ts[j].name { assert us[i].name != us[j].name; }
      forall i | 0 <= i < |ts| ensures ts[i].name != t.name { assert us[i].name != us[|ts|].name; }
    }
  }

  lemma NoneAlikeGrows(profiles: seq<Profile>)
    requires profiles != []
    ensures NoneAlike(profiles)
       <==> NoneAlike(Front(profiles)) && (Last(profiles).enabled ==> !OneLike(Front(profiles), Last(profiles)))
  {
    var before := Front(profiles);
    assert forall i :: 0 <= i < |before| ==> before[i] == profiles[i];
    assert profiles[|before|] == Last(profiles);
    if NoneAlike(profiles) {
      assert NoneAlike(before);
      forall i | 0 <= i < |before| && Last(profiles).enabled && before[i].enabled
        ensures !Alike(before[i].name, Last(profiles).name)
      {
        assert !Alike(profiles[i].name, profiles[|before|].name);
      }
    }
  }

  lemma {:induction false} EnabledNamesDifferExactly(profiles: seq<Profile>)
    ensures PeerNamesDiffer(EnabledTunnels(profiles)) <==> NoneAlike(profiles)
  {
    if profiles != [] {
      var before, q := Front(profiles), Last(profiles);
      EnabledNamesDifferExactly(before);
      NoneAlikeGrows(profiles);
      if q.enabled {
        NamesDifferGrows(EnabledTunnels(before), TunnelOf(q));
        OneLikeIsRendered(before, q);
      } else {
        assert EnabledTunnels(profiles) == EnabledTunnels(before);
      }
    }
  }

  /** The rendered peers have different names exactly when no two enabled profiles are alike. */
  lemma PeerNamesDifferExactly(profiles: seq<Profile>)
    ensures PeerNamesDiffer(Tunnels(profiles)) <==> NoneAlike(profiles)
  {
    TunnelsAreEnabledProfiles(profiles);
    EnabledNamesDifferExactly(profiles);
    if NoneAlike(profiles) { DifferingSurvives(Tunnels(profiles), EnabledTunnels(profiles)); }
    if PeerNamesDiffer(Tunnels(profiles)) { DifferingSurvives(EnabledTunnels(profiles), Tunnels(profiles)); }
  }

  // ---------------------------------------------------------------- lookup maps

  function NamesById(profiles: seq<Profile>): map<string, string> {
    if profiles == [] then map[] else NamesById(Front(profiles))[Last(profiles).id := Last(profiles).name]
  }

  function PeersByProfile(tunnels: seq<Tunnel>): map<string, Tunnel> {
    if tunnels == [] then map[] else PeersByProfile(Front(tunnels))[Last(tunnels).profile := Last(tunnels)]
  }

  lemma {:induction false} PeersByProfileHas(tunnels: seq<Tunnel>, name: string)
    ensures name in PeersByProfile(tunnels) <==> exists t :: t in tunnels && t.profile == name
  {
    if tunnels != [] {
      PeersByProfileHas(Front(tunnels), name);
      assert tunnels == Front(tunnels) + [Last(tunnels)];
      if name in PeersByProfile(Front(tunnels)) {
        var t :| t in Front(tunnels) && t.profile == name;
        assert t in tunnels;
      }
    }
  }

  lemma {:induction false} PeerIsTunnel(tunnels: seq<Tunnel>, name: string)
    requires name in PeersByProfile(tunnels)
    ensures PeersByProfile(tunnels)[name] in tunnels && PeersByProfile(tunnels)[name].profile == name
  {
    if tunnels != [] && Last(tunnels).profile != name { PeerIsTunnel(Front(tunnels), name); }
  }

  predicate IdsUnique(profiles: seq<Profile>) {
    forall i, j :: 0 <= i < j < |profiles| ==> profiles[i].id != profiles[j].id
  }

  lemma {:induction false} NamesByIdHas(profiles: seq<Profile>, id: string)
    requires IdsUnique(profiles)
    ensures id in NamesById(profiles) <==> exists p :: p in profiles && p.id == id
    ensures forall p :: p in profiles ==> p.id in NamesById(profiles) && NamesById(profiles)[p.id] == p.name
  {
    forall i | 0 <= i < |profiles| ensures NameAt(profiles, i) { NamesByIdAt(profiles, i); }
    if id in NamesById(profiles) {
      NamesByIdOnly(profiles, id);
      var i :| 0 <= i < |profiles| && profiles[i].id == id;
      assert profiles[i] in profiles;
    }
    forall p | p in profiles ensures p.id in NamesById(profiles) && NamesById(profiles)[p.id] == p.name {
      var i :| 0 <= i < |profiles| && profiles[i] == p;
      assert NameAt(profiles, i);
    }
  }

  predicate NameAt(profiles: seq<Profile>, i: nat)
    requires i < |profiles|
  {
    profiles[i].id in NamesById(profiles) && NamesById(profiles)[profiles[i].id] == profiles[i].name
  }

  lemma {:induction false} NamesByIdAt(profiles: seq<Profile>, i: nat)
    requires IdsUnique(profiles) && i < |profiles|
    ensures NameAt(profiles, i)
  {
    if i < |profiles| - 1 {
      NamesByIdAt(Front(profiles), i);
      assert profiles[i].id != Last(profiles).id;
    }
  }

  lemma {:induction false} NamesByIdOnly(profiles: seq<Profile>, id: string)
    requires id in NamesById(profiles)
    ensures exists i :: 0 <= i < |profiles| && profiles[i].id == id
  {
    if profiles != [] && Last(profiles).id != id {
      NamesByIdOnly(Front(profiles), id);
      var i :| 0 <= i < |Front(profiles)| && Front(profiles)[i].id == id;
      assert profiles[i].id == id;
    }
  }

  // ---------------------------------------------------------------- routes

  /** `primaryTunnel`: the first tier, else the target's own profile; resolved by id or not at all. */
  function PrimaryTunnel(tgt: Target, tiers: seq<TierRow>, names: map<string, string>): Option<(string, int)> {
    if |tiers| > 0 then
      if tiers[0].profileId in names && names[tiers[0].profileId] != "" then
        Some((names[tiers[0].profileId], tiers[0].tier))
      else None
    else if tgt.profileId != "" && tgt.profileId in names && names[tgt.profileId] != "" then
      Some((names[tgt.profileId], 0))
    else None
  }

  /** The route of one target, if it is enabled and its primary tunnel is there. */
  function RouteOf(cat: Catalog, tgt: Target): Option<Route> {
    if !tgt.enabled then None
    else
      var primary := PrimaryTunnel(tgt, ListTiers(cat.tiers, tgt.id), NamesById(cat.profiles));
      if primary.None? || primary.value.0 !in PeersByProfile(Tunnels(cat.profiles)) then None
      else Some(Route(tgt.publicAlias, primary.value.0, primary.value.1, "closed"))
  }

  function RoutesOf(cat: Catalog, targets: seq<Target>): seq<Route> {
    if targets == [] then []
    else
      var r := RouteOf(cat, Last(targets));
      RoutesOf(cat, Front(targets)) + if r.Some? then [r.value] else []
  }

  function DanteOf(cat: Catalog, targets: seq<Target>): seq<DanteRoute> {
    if targets == [] then []
    else
      var tgt := Last(targets);
      var r := RouteOf(cat, tgt);
      DanteOf(cat, Front(targets))
      + if r.Some? then
          var peer := PeersByProfile(Tunnels(cat.profiles))[r.value.tunnel];
          [DanteRoute(peer.name, tgt.privateIP, peer.peerHost, peer.peerPort)]
        else []
  }

  function Aliases(targets: seq<Target>): seq<string> {
    if targets == [] then []
    else Aliases(Front(targets)) + if Last(targets).enabled then [Last(targets).publicAlias] else []
  }

  method IndexPeers(tunnels: seq<Tunnel>) returns (m: map<string, Tunnel>)
    ensures m == PeersByProfile(tunnels)
  {
    m := map[];
    for i := 0 to |tunnels|
      invariant m == PeersByProfile(tunnels[..i])
    {
      assert Front(tunnels[..i + 1]) == tunnels[..i];
      m := m[tunnels[i].profile := tunnels[i]];
    }
    assert tunnels[..|tunnels|] == tunnels;
  }

  method IndexNames(profiles: seq<Profile>) returns (m: map<string, string>)
    ensures m == NamesById(profiles)
  {
    m := map[];
    for i := 0 to |profiles|
      invariant m == NamesById(profiles[..i])
    {
      assert Front(profiles[..i + 1]) == profiles[..i];
      m := m[profiles[i].id := profiles[i].name];
    }
    assert profiles[..|profiles|] == profiles;
  }

  method EnabledAliases(targets: seq<Target>) returns (aliases: seq<string>)
    ensures aliases == Aliases(targets)
  {
    aliases := [];
    for i := 0 to |targets|
      invariant aliases == Aliases(targets[..i])
    {
      assert Front(targets[..i + 1]) == targets[..i];
      if targets[i].enabled { aliases := aliases + [targets[i].publicAlias]; }
    }
    assert targets[..|targets|] == targets;
  }

  /** One read pass. Any failing read that is reached fails the whole compile. */
  method CompileAll(e: Engine, cat: Catalog, faults: Faults) returns (r: Option<Compiled>)
    ensures r.None? <==> || faults.profiles || faults.targets
                         || exists i :: 0 <= i < |cat.targets| && cat.targets[i].enabled
                                        && cat.targets[i].id in faults.tiersOf
    ensures r.Some? ==>
              && r.value.routes == RoutesOf(cat, cat.targets)
              && r.value.dante == DanteOf(cat, cat.targets)
              && r.value.pac == Pac.RenderPac(e.pacProxy, Aliases(cat.targets))
              && r.value.squidInclude == RenderInclude(e.prose, e.helperPath, Tunnels(cat.profiles))
  {
    if faults.profiles || faults.targets { return None; }
    var targets := cat.targets;
    var tunnels := ResolveTunnels(cat.profiles);
    var peerByProfile := IndexPeers(tunnels);
    var nameById := IndexNames(cat.profiles);
    var dRoutes, routes := [], [];
    for i := 0 to |targets|
      invariant routes == RoutesOf(cat, targets[..i])
      invariant dRoutes == DanteOf(cat, targets[..i])
      invariant forall j :: 0 <= j < i && targets[j].enabled ==> targets[j].id !in faults.tiersOf
    {
      assert Front(targets[..i + 1]) == targets[..i];
      var tgt := targets[i];
      if !tgt.enabled { continue; }
      if tgt.id in faults.tiersOf { return None; }
      var primary := PrimaryTunnel(tgt, ListTiers(cat.tiers, tgt.id), nameById);
      if primary.None? { continue; }
      var profileName, tier := primary.value.0, primary.value.1;
      if profileName !in peerByProfile { continue; }
      var peer := peerByProfile[profileName];
      dRoutes := dRoutes + [DanteRoute(peer.name, tgt.privateIP, peer.peerHost, peer.peerPort)];
      routes := routes + [Route(tgt.publicAlias, profileName, tier, "closed")];
    }
    assert targets[..|targets|] == targets;
    var aliases := EnabledAliases(targets);
    var text := RenderInclude(e.prose, e.helperPath, tunnels);
    r := Some(Compiled(text, dRoutes, Pac.RenderPac(e.pacProxy, aliases), routes));
  }

  // ---------------------------------------------------------------- seeding

  function Seeded(m: Routes, rs: seq<Route>): Routes {
    if rs == [] then m else Seeded(m, Front(rs))[Last(rs).target := Json(Last(rs))]
  }

  /** The seeding loop: stops at the first failing write, and never removes a key. */
  method SeedRoutes(rc: Client, rs: seq<Route>, failAt: nat) returns (seeded: nat)
    modifies rc`routes
    ensures seeded == if failAt < |rs| then failAt else |rs|
    ensures rc.routes == Seeded(old(rc.routes), rs[..seeded])
  {
    seeded := 0;
    while seeded < |rs|
      invariant seeded <= |rs| && seeded <= failAt
      invariant rc.routes == Seeded(old(rc.routes), rs[..seeded])
    {
      var ok := rc.SetRoute(rs[seeded], seeded == failAt);
      if !ok { return; }
      assert Front(rs[..seeded + 1]) == rs[..seeded];
      seeded := seeded + 1;
    }
  }

  /** Each key holds the last route for its target; old keys without one stay as they were. */
  lemma {:induction false} SeededHolds(m: Routes, rs: seq<Route>, h: string)
    ensures h in Seeded(m, rs) <==> LastFor(rs, h).Some? || h in m
    ensures h in Seeded(m, rs) ==> Seeded(m, rs)[h] == if LastFor(rs, h).Some? then Json(LastFor(rs, h).value) else m[h]
  {
    if rs != [] { SeededHolds(m, Front(rs), h); }
  }
}
