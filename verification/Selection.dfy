/** Tier failover (control-plane/internal/breaker/selection.go). */
module Selection {
  import opened Text
  import opened Vpn
  import opened Store
  import opened Routing
  import Breaker

  datatype Tier = Tier(tunnel: string, tier: int)

  /** The caller's view of a tunnel: breaker closed, health up. */
  datatype View = View(breakerClosed: bool, healthUp: bool)

  type ViewOf = string -> View

  predicate Eligible(t: Tier, state: ViewOf) { state(t.tunnel).breakerClosed && state(t.tunnel).healthUp }

  /** Position `i` is the choice: eligible, of least tier, and before all others of that tier. */
  predicate Best(tiers: seq<Tier>, state: ViewOf, i: nat) {
    && i < |tiers| && Eligible(tiers[i], state)
    && (forall j :: 0 <= j < |tiers| && Eligible(tiers[j], state) ==> tiers[i].tier <= tiers[j].tier)
    && (forall j :: 0 <= j < i && Eligible(tiers[j], state) ==> tiers[i].tier < tiers[j].tier)
  }

  predicate NoneEligible(tiers: seq<Tier>, state: ViewOf) {
    forall j :: 0 <= j < |tiers| ==> !Eligible(tiers[j], state)
  }

  /** What `SelectTunnel` must return. */
  ghost predicate Chosen(tiers: seq<Tier>, state: ViewOf, chosen: string) {
    || (NoneEligible(tiers, state) && chosen == "")
    || exists i: nat :: Best(tiers, state, i) && tiers[i].tunnel == chosen
  }

  method SelectTunnel(tiers: seq<Tier>, state: Option<ViewOf>) returns (chosen: string)
    ensures state.None? ==> chosen == ""
    ensures state.Some? ==> Chosen(tiers, state.value, chosen)
  {
    if |tiers| == 0 || state.None? { return ""; }
    var found, bestTier := false, 0;
    chosen := "";
    ghost var at: nat := 0;
    for i := 0 to |tiers|
      invariant !found ==> NoneEligible(tiers[..i], state.value)
      invariant found ==> Best(tiers[..i], state.value, at) && bestTier == tiers[at].tier && chosen == tiers[at].tunnel
    {
      var t := tiers[i];
      var view := state.value(t.tunnel);
      if !view.breakerClosed || !view.healthUp { continue; }
      if !found || t.tier < bestTier {
        found, bestTier, chosen := true, t.tier, t.tunnel;
        at := i;
      }
    }
    assert tiers[..|tiers|] == tiers;
    if !found { return ""; }
  }

  predicate DistinctTiers(tiers: seq<Tier>) {
    forall i, j :: 0 <= i < j < |tiers| ==> tiers[i].tier != tiers[j].tier
  }

  /** The choice is one value, and with distinct tiers it does not depend on the order of the list. */
  lemma ChoiceIgnoresOrder(a: seq<Tier>, b: seq<Tier>, state: ViewOf, x: string, y: string)
    requires Chosen(a, state, x) && Chosen(b, state, y)
    requires a == b || (DistinctTiers(a) && forall t :: t in a <==> t in b)
    ensures x == y
  {
    if NoneEligible(a, state) {
      forall k | 0 <= k < |b| ensures !Eligible(b[k], state) {
        assert b[k] in a;
        var m :| 0 <= m < |a| && a[m] == b[k];
      }
    } else {
      var i: nat :| Best(a, state, i) && a[i].tunnel == x;
      assert a[i] in b;
      var k :| 0 <= k < |b| && b[k] == a[i];
      assert Eligible(b[k], state);
      var j: nat :| Best(b, state, j) && b[j].tunnel == y;
      assert b[j] in a;
      var m :| 0 <= m < |a| && a[m] == b[j];
      assert a[i].tier <= a[m].tier && b[j].tier <= b[k].tier;
    }
  }

  // ---------------------------------------------------------------- with the breakers

  /** The view that a registry with this history gives at `now`, beside the tunnels' health. */
  function RegistryView(o: Breaker.Options, events: seq<Breaker.Event>, now: Instant, up: string -> bool): ViewOf {
    (t: string) => View(Breaker.Current(Breaker.Of(Breaker.After(o, events), t), now).Closed?, up(t))
  }

  /** Whatever was recorded and asked, of which tunnels and in which order: with the registry as its view,
      selection picks no tunnel whose own probes end in as many failures as the threshold, and none that
      is not up. */
  lemma ChosenTunnelIsHealthy(
    o: Breaker.Options, limit: nat, dwell: int, events: seq<Breaker.Event>, now: Instant, up: string -> bool,
    tiers: seq<Tier>, chosen: string)
    requires Breaker.Means(o, limit, dwell) && Breaker.InOrder(events) && (events != [] ==> Last(events).at <= now)
    requires Chosen(tiers, RegistryView(o, events, now, up), chosen)
    requires !NoneEligible(tiers, RegistryView(o, events, now, up))
    ensures up(chosen) && Breaker.TrailingFailures(Breaker.Own(events, chosen)) < limit
  {
    var view := RegistryView(o, events, now, up);
    var i: nat :| Best(tiers, view, i) && tiers[i].tunnel == chosen;
    assert view(chosen).breakerClosed;
    Breaker.ClosedMeansFewFailures(o, limit, dwell, events, chosen, now);
  }

  /** A tunnel is passed over because of its breaker exactly when its own probes opened it: what other
      tunnels did makes no difference. */
  lemma EligibleByOwnHistory(
    o: Breaker.Options, limit: nat, dwell: int, events: seq<Breaker.Event>, now: Instant, up: string -> bool, t: Tier)
    requires Breaker.Means(o, limit, dwell) && Breaker.InOrder(events) && (events != [] ==> Last(events).at <= now)
    ensures Eligible(t, RegistryView(o, events, now, up))
       <==> up(t.tunnel) && Breaker.OpenedAt(limit, dwell, Breaker.Own(events, t.tunnel)).None?
  {
    Breaker.ReportedClosedExactly(o, limit, dwell, events, t.tunnel, now);
  }

  // ---------------------------------------------------------------- failover and compilation agree

  /** A target's failover chain, with profile ids resolved to names. */
  function Chain(rows: seq<TierRow>, names: map<string, string>): (r: seq<Tier>)
    requires Resolvable(rows, names)
    ensures |r| == |rows| && forall i :: 0 <= i < |r| ==> r[i] == Tier(names[rows[i].profileId], rows[i].tier)
  {
    seq(|rows|, i requires 0 <= i < |rows| => Tier(names[rows[i].profileId], rows[i].tier))
  }

  predicate Resolvable(rows: seq<TierRow>, names: map<string, string>) {
    forall i :: 0 <= i < |rows| ==> rows[i].profileId in names && names[rows[i].profileId] != ""
  }

  /** After any run of tier upserts and deletes, with every tunnel eligible, failover picks the tunnel that
      the compiler makes primary. */
  lemma FailoverAgreesWithPrimary(
    ops: seq<TierOp>, tgt: Target, names: map<string, string>, state: ViewOf, chosen: string)
    requires Resolvable(ListTiers(RunTierOps(ops), tgt.id), names) && ListTiers(RunTierOps(ops), tgt.id) != []
    requires forall i :: 0 <= i < |ListTiers(RunTierOps(ops), tgt.id)| ==>
               Eligible(Chain(ListTiers(RunTierOps(ops), tgt.id), names)[i], state)
    requires Chosen(Chain(ListTiers(RunTierOps(ops), tgt.id), names), state, chosen)
    ensures DistinctTiers(Chain(ListTiers(RunTierOps(ops), tgt.id), names))
    ensures PrimaryTunnel(tgt, ListTiers(RunTierOps(ops), tgt.id), names)
         == Some((chosen, ListTiers(RunTierOps(ops), tgt.id)[0].tier))
  {
    var rows := ListTiers(RunTierOps(ops), tgt.id);
    TierOpsKeepKeys(ops);
    ListTiersAscends(RunTierOps(ops), tgt.id);
    var chain := Chain(rows, names);
    assert Eligible(chain[0], state);
    var i: nat :| Best(chain, state, i) && chain[i].tunnel == chosen;
    assert chain[i].tier <= chain[0].tier;
  }
}
