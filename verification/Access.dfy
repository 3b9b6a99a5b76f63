/** What the assembled Squid configuration lets out: the base file around the generated include
    (config/squid/squid.dynamic.conf, control-plane/internal/routing/routing_failclosed_test.go).

    Assumed of Squid: rules of one kind are tried in order and the first whose terms all hold decides;
    if none does, the opposite of the last rule holds. Without rules, `http_access` denies,
    `always_direct` and `never_direct` do not apply and a peer is usable. `always_direct` goes before
    `never_direct`, and no directive but those of `Squid.Routes` decides who is let in or which way a
    request goes. */
module Access {
  import opened Text
  import opened ConfigText
  import opened Squid

  /** Which ACLs the request at hand matches. `tun_up` is the helper's answer. */
  type Acls = string -> bool

  predicate Holds(t: Term, env: Acls) { (t.acl == "all" || env(t.acl)) != t.negated }

  predicate Matches(r: Rule, env: Acls) { forall i :: 0 <= i < |r.terms| ==> Holds(r.terms[i], env) }

  function FirstMatch(rules: seq<Rule>, env: Acls): Option<bool> {
    if rules == [] then None else if Matches(rules[0], env) then Some(rules[0].allow) else FirstMatch(rules[1..], env)
  }

  function Decision(rules: seq<Rule>, env: Acls, noRules: bool): bool {
    match FirstMatch(rules, env)
    case Some(allow) => allow
    case None => if rules == [] then noRules else !Last(rules).allow
  }

  function Rules(ds: seq<Directive>, pick: Directive -> Option<Rule>): seq<Rule> {
    if ds == [] then []
    else (match pick(ds[0]) case Some(r) => [r] case None => []) + Rules(ds[1..], pick)
  }

  function HttpRule(d: Directive): Option<Rule> { if d.HttpAccess? then Some(d.rule) else None }

  function AlwaysRule(d: Directive): Option<Rule> { if d.AlwaysDirect? then Some(d.rule) else None }

  function NeverRule(d: Directive): Option<Rule> { if d.NeverDirect? then Some(d.rule) else None }

  function PeerRule(name: string): Directive -> Option<Rule> {
    (d: Directive) => if d.PeerAccess? && d.name == name then Some(d.rule) else None
  }

  predicate HasPeer(ds: seq<Directive>, name: string) {
    exists i :: 0 <= i < |ds| && ds[i].CachePeer? && ds[i].kind == "parent" && ds[i].name == name
  }

  datatype Exit = Direct | Via(name: string)

  predicate Admitted(ds: seq<Directive>, env: Acls) { Decision(Rules(ds, HttpRule), env, false) }

  predicate MustGoDirect(ds: seq<Directive>, env: Acls) { Decision(Rules(ds, AlwaysRule), env, false) }

  /** The request is admitted and may leave this way. */
  predicate CanLeave(ds: seq<Directive>, env: Acls, exit: Exit) {
    && Admitted(ds, env)
    && match exit
       case Direct => MustGoDirect(ds, env) || !Decision(Rules(ds, NeverRule), env, false)
       case Via(name) =>
         !MustGoDirect(ds, env) && HasPeer(ds, name) && Decision(Rules(ds, PeerRule(name)), env, true)
  }

  // ---------------------------------------------------------------- assembling

  lemma {:induction false} RulesConcat(a: seq<Directive>, b: seq<Directive>, pick: Directive -> Option<Rule>)
    ensures Rules(a + b, pick) == Rules(a, pick) + Rules(b, pick)
  {
    if a == [] {
      assert a + b == b;
    } else {
      assert (a + b)[1..] == a[1..] + b;
      RulesConcat(a[1..], b, pick);
    }
  }

  lemma {:induction false} FirstMatchConcat(a: seq<Rule>, b: seq<Rule>, env: Acls)
    ensures FirstMatch(a + b, env) == if FirstMatch(a, env).Some? then FirstMatch(a, env) else FirstMatch(b, env)
  {
    if a == [] {
      assert a + b == b;
    } else {
      assert (a + b)[1..] == a[1..] + b;
      FirstMatchConcat(a[1..], b, env);
    }
  }

  /** The text leaves no line to go on. */
  predicate Closed(text: string) { Open(Split(text, '\n'), "") == "" }

  /** Splicing the include into the base text is splicing its directives into the base's, if neither the
      text before it nor the include ends in a line that goes on. */
  lemma AssembledReads(before: string, generated: string, after: string)
    requires Closed(before) && Closed(generated)
    ensures ReadConfig(before + ['\n'] + (generated + ['\n'] + after))
         == ReadConfig(before) + ReadConfig(generated) + ReadConfig(after)
  {
    var rest := generated + ['\n'] + after;
    ReadTwo(before, rest);
    ReadTwo(generated, after);
    Assoc(ReadConfig(before), ReadConfig(generated), ReadConfig(after));
  }

  lemma ReadTwo(a: string, b: string)
    requires Closed(a)
    ensures ReadConfig(a + ['\n'] + b) == ReadConfig(a) + ReadConfig(b)
  {
    SplitOfConcat(a, '\n', b);
    ReadLinesConcat(Split(a, '\n'), Split(b, '\n'));
  }

  lemma RenderedIsClosed(prose: Prose, helperPath: string, tunnels: seq<Tunnel>)
    requires ProseOk(prose) && HelperOk(helperPath)
    requires forall i :: 0 <= i < |tunnels| ==> TunnelOk(tunnels[i])
    ensures Closed(RenderInclude(prose, helperPath, tunnels))
  {
    var wiring, peers := LinesOf(WiringWords(helperPath)), AllTunnelLines(prose, tunnels);
    var closed := LinesOf(FAIL_CLOSED_WORDS);
    RenderedLines(prose, helperPath, tunnels);
    WiringReads(helperPath);
    AllTunnelLinesRead(prose, tunnels);
    FailClosedReads();
    CommentsAreSkipped(prose.header);
    CommentsAreSkipped(prose.banner);
    BlankIsSkipped();
    OneLinersConcat(prose.header, wiring);
    OneLinersConcat(prose.header + wiring, peers);
    OneLinersConcat(prose.header + wiring + peers, [""]);
    OneLinersConcat(prose.header + wiring + peers + [""], prose.banner);
    OneLinersConcat(prose.header + wiring + peers + [""] + prose.banner, closed);
    OneLinersConcat(prose.header + wiring + peers + [""] + prose.banner + closed, [""]);
    OneLinersClose(IncludeLines(prose, helperPath, tunnels));
  }

  /** The directive is an access rule, or something that the routing does not look at. */
  predicate RoutesNothing(d: Directive) {
    || d.HttpAccess? || d.ExternalAcl? || d.AclDef? || d.DenyInfo?
    || (d.Other? && d.words != [] && !Routes(d.words[0]))
  }

  predicate Passive(ds: seq<Directive>) { forall i :: 0 <= i < |ds| ==> RoutesNothing(ds[i]) }

  /** The directive line is not a routing line, or it is a well-formed `http_access` line. */
  predicate PassiveText(line: string) {
    var words := LineWords(line);
    words != [] && Routes(words[0]) ==> words[0] == "http_access" && |words| > 1
  }

  predicate AllPassive(lines: seq<string>) { forall i :: 0 <= i < |lines| ==> PassiveText(lines[i]) }

  /** Text is passive exactly when every directive line of it that starts with a routing word is an
      `http_access` line. */
  lemma PassiveTextExactly(lines: seq<string>)
    ensures Passive(ReadLines(lines)) <==> AllPassive(Logical(lines, ""))
  {
    PassiveLinesExactly(Logical(lines, ""));
  }

  lemma {:induction false} PassiveLinesExactly(lines: seq<string>)
    ensures Passive(ReadAll(lines)) <==> AllPassive(lines)
  {
    if lines != [] {
      PassiveLinesExactly(Front(lines));
      PassiveLine(Last(lines));
      PassiveConcat(ReadAll(Front(lines)), ReadLine(Last(lines)));
      AllPassiveSnoc(Front(lines), Last(lines));
      assert Front(lines) + [Last(lines)] == lines;
    }
  }

  lemma AllPassiveSnoc(lines: seq<string>, line: string)
    ensures AllPassive(lines + [line]) <==> AllPassive(lines) && PassiveText(line)
  {
    var all := lines + [line];
    assert all[|lines|] == line && forall i :: 0 <= i < |lines| ==> all[i] == lines[i];
  }

  /** A line cut in two by a backslash counts as one: it routes exactly when the whole does. */
  lemma ContinuedLineRoutes(a: string, b: string)
    requires a != "" && !AsciiSpace(a[0]) && a[0] != '#' && Free(a, '\r')
    requires Content(b) == b != "" && Last(b) != '\\'
    ensures Passive(ReadLines([a + ['\\'], b])) <==> PassiveText(a + b)
  {
    ContinuedIsOne(a, b);
    PassiveTextExactly([a + ['\\'], b]);
    assert [a + b][0] == a + b;
  }

  lemma PassiveConcat(a: seq<Directive>, b: seq<Directive>)
    ensures Passive(a + b) <==> Passive(a) && Passive(b)
  {
    var c := a + b;
    assert forall i :: 0 <= i < |a| ==> c[i] == a[i];
    assert forall i :: 0 <= i < |b| ==> c[|a| + i] == b[i];
  }

  lemma PassiveLine(line: string)
    ensures Passive(ReadLine(line)) <==> PassiveText(line)
  {
    var words := LineWords(line);
    if words != [] { PassiveOne(ReadWords(words)); }
  }

  lemma PassiveOne(d: Directive)
    ensures Passive([d]) <==> RoutesNothing(d)
  {
    assert [d][0] == d;
  }

  lemma {:induction false} PassiveHasNoRoutes(ds: seq<Directive>, name: string)
    requires Passive(ds)
    ensures Rules(ds, NeverRule) == [] && Rules(ds, AlwaysRule) == [] && Rules(ds, PeerRule(name)) == []
    ensures !HasPeer(ds, name)
  {
    if ds != [] { PassiveHasNoRoutes(ds[1..], name); }
  }

  /** The peers of the include: no http_access and no never_direct rule, and each rendered peer is
      usable exactly while the tunnel is up. */
  lemma {:induction false} PeersDecide(tunnels: seq<Tunnel>, name: string, env: Acls)
    ensures Rules(PeerDirectives(tunnels), HttpRule) == [] && Rules(PeerDirectives(tunnels), NeverRule) == []
    ensures Rules(PeerDirectives(tunnels), AlwaysRule) == []
    ensures HasPeer(PeerDirectives(tunnels), name) <==> Rendered(tunnels, name)
    ensures Rendered(tunnels, name) ==>
              FirstMatch(Rules(PeerDirectives(tunnels), PeerRule(name)), env) == Some(env("tun_up"))
  {
    if tunnels != [] {
      var before, t := PeerDirectives(Front(tunnels)), Last(tunnels);
      var block := PeerBlock(t);
      PeersDecide(Front(tunnels), name, env);
      BlockDecides(t, name, env);
      RulesConcat(before, block, HttpRule);
      RulesConcat(before, block, NeverRule);
      RulesConcat(before, block, AlwaysRule);
      RulesConcat(before, block, PeerRule(name));
      FirstMatchConcat(Rules(before, PeerRule(name)), Rules(block, PeerRule(name)), env);
      HasPeerConcat(before, block, name);
      if !Rendered(Front(tunnels), name) { NoPeerNoRules(Front(tunnels), name); }
    }
  }

  lemma HasPeerConcat(a: seq<Directive>, b: seq<Directive>, name: string)
    ensures HasPeer(a + b, name) <==> HasPeer(a, name) || HasPeer(b, name)
  {
    if HasPeer(a, name) {
      var i :| 0 <= i < |a| && a[i].CachePeer? && a[i].kind == "parent" && a[i].name == name;
      assert (a + b)[i] == a[i];
    }
    if HasPeer(b, name) {
      var i :| 0 <= i < |b| && b[i].CachePeer? && b[i].kind == "parent" && b[i].name == name;
      assert (a + b)[|a| + i] == b[i];
    }
  }

  lemma {:induction false} NoPeerNoRules(tunnels: seq<Tunnel>, name: string)
    requires !Rendered(tunnels, name)
    ensures Rules(PeerDirectives(tunnels), PeerRule(name)) == []
  {
    if tunnels != [] {
      var t := Last(tunnels);
      var block := PeerBlock(t);
      NoPeerNoRules(Front(tunnels), name);
      RulesConcat(PeerDirectives(Front(tunnels)), block, PeerRule(name));
      BlockDecides(t, name, _ => true);
    }
  }

  function Picked(d: Directive, pick: Directive -> Option<Rule>): seq<Rule> {
    match pick(d) case Some(r) => [r] case None => []
  }

  lemma RulesOfThree(a: Directive, b: Directive, c: Directive, pick: Directive -> Option<Rule>)
    ensures Rules([a, b, c], pick) == Picked(a, pick) + Picked(b, pick) + Picked(c, pick)
  {
    assert [a, b, c][1..] == [b, c] && [b, c][1..] == [c] && [c][1..] == [];
    assert Rules([c], pick) == Picked(c, pick);
    assert Rules([b, c], pick) == Picked(b, pick) + Picked(c, pick);
  }

  lemma BlockDecides(t: Tunnel, name: string, env: Acls)
    ensures Rules(PeerBlock(t), HttpRule) == [] && Rules(PeerBlock(t), NeverRule) == []
    ensures Rules(PeerBlock(t), AlwaysRule) == []
    ensures HasPeer(PeerBlock(t), name) <==> t.name == name
    ensures t.name != name ==> Rules(PeerBlock(t), PeerRule(name)) == []
    ensures t.name == name ==> FirstMatch(Rules(PeerBlock(t), PeerRule(name)), env) == Some(env("tun_up"))
  {
    var block := PeerBlock(t);
    RulesOfThree(block[0], block[1], block[2], HttpRule);
    RulesOfThree(block[0], block[1], block[2], NeverRule);
    RulesOfThree(block[0], block[1], block[2], AlwaysRule);
    RulesOfThree(block[0], block[1], block[2], PeerRule(name));
    assert block[0].name == t.name;
    if t.name == name {
      assert Rules(block, PeerRule(name)) == [ALLOW_TUN_UP, DENY_ALL];
      assert [ALLOW_TUN_UP, DENY_ALL][1..] == [DENY_ALL];
      SimpleRulesMatch(env);
    }
  }

  lemma SimpleRulesMatch(env: Acls)
    ensures Matches(DENY_ALL, env) && Matches(ALLOW_ALL, env)
    ensures Matches(ALLOW_TUN_UP, env) == env("tun_up")
    ensures Matches(DENY_TUN_DOWN, env) == !env("tun_up")
    ensures Matches(ALLOW_LOCALNET, env) == env("localnet")
  {
    assert ALLOW_TUN_UP.terms[0] == Term(false, "tun_up");
    assert DENY_TUN_DOWN.terms[0] == Term(true, "tun_up");
    assert ALLOW_LOCALNET.terms[0] == Term(false, "localnet");
  }

  // ---------------------------------------------------------------- the include decides

  lemma WiringIsPassive(helperPath: string, name: string)
    ensures var w := WiringBlock(helperPath);
            && Rules(w, HttpRule) == [] && Rules(w, NeverRule) == [] && Rules(w, AlwaysRule) == []
            && Rules(w, PeerRule(name)) == [] && !HasPeer(w, name)
  {
    var a, b := WiringBlock(helperPath)[0], WiringBlock(helperPath)[1];
    assert WiringBlock(helperPath) == [a, b];
    assert [a, b][1..] == [b] && [b][1..] == [] && Rules([b], HttpRule) == [];
    PassiveHasNoRoutes([a, b], name);
  }

  lemma ClosedBlockRules(name: string)
    ensures Rules(CLOSED_BLOCK, HttpRule) == [DENY_TUN_DOWN, ALLOW_LOCALNET]
    ensures Rules(CLOSED_BLOCK, NeverRule) == [ALLOW_ALL] && Rules(CLOSED_BLOCK, AlwaysRule) == []
    ensures Rules(CLOSED_BLOCK, PeerRule(name)) == [] && !HasPeer(CLOSED_BLOCK, name)
  {
    var last := CLOSED_BLOCK[3];
    assert CLOSED_BLOCK == [CLOSED_BLOCK[0], CLOSED_BLOCK[1], CLOSED_BLOCK[2]] + [last];
    var front := [CLOSED_BLOCK[0], CLOSED_BLOCK[1], CLOSED_BLOCK[2]];
    PassiveHasNoRoutes([last], name);
    assert Rules([last], HttpRule) == [] by { assert [last][1..] == []; }
    RulesConcat(front, [last], HttpRule);
    RulesConcat(front, [last], NeverRule);
    RulesConcat(front, [last], AlwaysRule);
    RulesConcat(front, [last], PeerRule(name));
    RulesOfThree(front[0], front[1], front[2], HttpRule);
    RulesOfThree(front[0], front[1], front[2], NeverRule);
    RulesOfThree(front[0], front[1], front[2], AlwaysRule);
    RulesOfThree(front[0], front[1], front[2], PeerRule(name));
  }

  lemma IncludeRules(helperPath: string, tunnels: seq<Tunnel>, name: string, env: Acls)
    ensures var inc := Include(helperPath, tunnels);
            && Rules(inc, HttpRule) == [DENY_TUN_DOWN, ALLOW_LOCALNET]
            && Rules(inc, NeverRule) == [ALLOW_ALL] && Rules(inc, AlwaysRule) == []
            && Rules(inc, PeerRule(name)) == Rules(PeerDirectives(tunnels), PeerRule(name))
            && (HasPeer(inc, name) <==> Rendered(tunnels, name))
  {
    var w := WiringBlock(helperPath);
    var p := PeerDirectives(tunnels);
    assert Include(helperPath, tunnels) == w + p + CLOSED_BLOCK;
    WiringIsPassive(helperPath, name);
    PeersDecide(tunnels, name, env);
    ClosedBlockRules(name);
    ThreeParts(w, p, CLOSED_BLOCK, HttpRule);
    ThreeParts(w, p, CLOSED_BLOCK, NeverRule);
    ThreeParts(w, p, CLOSED_BLOCK, AlwaysRule);
    ThreeParts(w, p, CLOSED_BLOCK, PeerRule(name));
    HasPeerConcat(w, p, name);
    HasPeerConcat(w + p, CLOSED_BLOCK, name);
  }

  lemma ThreeParts(a: seq<Directive>, b: seq<Directive>, c: seq<Directive>, pick: Directive -> Option<Rule>)
    ensures Rules(a + b + c, pick) == Rules(a, pick) + Rules(b, pick) + Rules(c, pick)
  {
    RulesConcat(a, b, pick);
    RulesConcat(a + b, c, pick);
  }

  /** The base around the include routes nothing itself and ends in a lone `http_access deny all`. */
  predicate BaseOk(before: seq<Directive>, after: seq<Directive>) {
    Passive(before) && Passive(after) && Rules(after, HttpRule) == [DENY_ALL]
  }

  /** Who gets in: whoever the base admits before the include, and otherwise the local network while
      the tunnel is up. */
  lemma AdmittedExactly(
    before: seq<Directive>, helperPath: string, tunnels: seq<Tunnel>, after: seq<Directive>, env: Acls)
    requires BaseOk(before, after)
    ensures Admitted(before + Include(helperPath, tunnels) + after, env)
       <==> match FirstMatch(Rules(before, HttpRule), env)
            case Some(allow) => allow
            case None => env("tun_up") && env("localnet")
  {
    var inc := Include(helperPath, tunnels);
    IncludeRules(helperPath, tunnels, "", env);
    ThreeParts(before, inc, after, HttpRule);
    var b := Rules(before, HttpRule);
    var tail := [DENY_TUN_DOWN, ALLOW_LOCALNET] + [DENY_ALL];
    assert Rules(before + inc + after, HttpRule) == b + tail;
    FirstMatchConcat(b, tail, env);
    SimpleRulesMatch(env);
    assert tail[1..] == [ALLOW_LOCALNET, DENY_ALL] && tail[1..][1..] == [DENY_ALL];
    assert FirstMatch([DENY_ALL], env) == Some(false);
    assert FirstMatch(tail[1..], env) == Some(env("localnet"));
    assert FirstMatch(tail, env) == Some(env("tun_up") && env("localnet"));
  }

  /** Who gets out, and how: nobody directly, and through a peer exactly an admitted request, through a
      rendered peer, while the tunnel is up. Whatever the base admits, a tunnel that is down lets
      nothing leave. */
  lemma LeavesExactly(
    before: seq<Directive>, helperPath: string, tunnels: seq<Tunnel>, after: seq<Directive>, env: Acls, exit: Exit)
    requires BaseOk(before, after)
    ensures var ds := before + Include(helperPath, tunnels) + after;
            CanLeave(ds, env, exit) <==> exit.Via? && Rendered(tunnels, exit.name) && env("tun_up") && Admitted(ds, env)
  {
    var ds := before + Include(helperPath, tunnels) + after;
    var name := if exit.Via? then exit.name else "";
    RoutesOfAssembly(before, helperPath, tunnels, after, name, env);
    if exit.Direct? { SimpleRulesMatch(env); }
  }

  lemma RoutesOfAssembly(
    before: seq<Directive>, helperPath: string, tunnels: seq<Tunnel>, after: seq<Directive>, name: string, env: Acls)
    requires BaseOk(before, after)
    ensures var ds := before + Include(helperPath, tunnels) + after;
            && Rules(ds, NeverRule) == [ALLOW_ALL] && Rules(ds, AlwaysRule) == []
            && (HasPeer(ds, name) <==> Rendered(tunnels, name))
            && (Rendered(tunnels, name) ==> FirstMatch(Rules(ds, PeerRule(name)), env) == Some(env("tun_up")))
  {
    var inc := Include(helperPath, tunnels);
    IncludeRules(helperPath, tunnels, name, env);
    PassiveHasNoRoutes(before, name);
    PassiveHasNoRoutes(after, name);
    PeersDecide(tunnels, name, env);
    AroundPassive(before, inc, after, NeverRule);
    AroundPassive(before, inc, after, AlwaysRule);
    AroundPassive(before, inc, after, PeerRule(name));
    HasPeerConcat(before, inc, name);
    HasPeerConcat(before + inc, after, name);
  }

  lemma AroundPassive(a: seq<Directive>, b: seq<Directive>, c: seq<Directive>, pick: Directive -> Option<Rule>)
    requires Rules(a, pick) == [] && Rules(c, pick) == []
    ensures Rules(a + b + c, pick) == Rules(b, pick)
  {
    ThreeParts(a, b, c, pick);
  }

  /** Why the base must not route: one `always_direct allow all` in it, and every admitted request leaves
      directly, whatever the include says. */
  lemma AlwaysDirectDefeatsInclude(
    before: seq<Directive>, helperPath: string, tunnels: seq<Tunnel>, after: seq<Directive>, env: Acls, exit: Exit)
    requires BaseOk(before, after)
    ensures var ds := [AlwaysDirect(ALLOW_ALL)] + (before + Include(helperPath, tunnels) + after);
            CanLeave(ds, env, exit) <==> exit.Direct? && Admitted(ds, env)
  {
    var always, rest := [AlwaysDirect(ALLOW_ALL)], before + Include(helperPath, tunnels) + after;
    RoutesOfAssembly(before, helperPath, tunnels, after, "", env);
    RulesConcat(always, rest, AlwaysRule);
    assert always[1..] == [] && Rules(always, AlwaysRule) == [ALLOW_ALL];
    SimpleRulesMatch(env);
  }

  /** Without the include nobody has a peer, and whoever the base admits leaves directly. So a missing
      include denies everything exactly for requests that the base does not admit by itself. */
  lemma MissingIncludeExactly(before: seq<Directive>, after: seq<Directive>, env: Acls, exit: Exit)
    requires BaseOk(before, after)
    ensures CanLeave(before + after, env, exit)
       <==> exit.Direct? && FirstMatch(Rules(before, HttpRule), env) == Some(true)
  {
    var name := if exit.Via? then exit.name else "";
    PassiveHasNoRoutes(before, name);
    PassiveHasNoRoutes(after, name);
    RulesConcat(before, after, HttpRule);
    RulesConcat(before, after, NeverRule);
    RulesConcat(before, after, AlwaysRule);
    HasPeerConcat(before, after, name);
    FirstMatchConcat(Rules(before, HttpRule), [DENY_ALL], env);
    SimpleRulesMatch(env);
  }

  predicate NoAllow(ds: seq<Directive>) { forall i :: 0 <= i < |ds| ==> ds[i].HttpAccess? ==> !ds[i].rule.allow }

  lemma {:induction false} NoAllowNeverAdmits(ds: seq<Directive>, env: Acls)
    requires NoAllow(ds)
    ensures FirstMatch(Rules(ds, HttpRule), env) != Some(true)
  {
    if ds != [] {
      NoAllowNeverAdmits(ds[1..], env);
      var rest := Rules(ds[1..], HttpRule);
      if ds[0].HttpAccess? {
        assert Rules(ds, HttpRule) == [ds[0].rule] + rest && ([ds[0].rule] + rest)[1..] == rest;
      } else {
        assert Rules(ds, HttpRule) == rest;
      }
    }
  }

  /** The promise of the include, on configuration text: spliced into any base that allows nothing
      before it, it admits only the local network while the tunnel is up, lets requests out only
      through a rendered peer, and removing it lets nothing in. */
  lemma RenderedTextFailsClosed(
    prose: Prose, helperPath: string, tunnels: seq<Tunnel>, before: string, after: string, env: Acls)
    requires ProseOk(prose) && HelperOk(helperPath)
    requires forall i :: 0 <= i < |tunnels| ==> TunnelOk(tunnels[i])
    requires Closed(before) && BaseOk(ReadConfig(before), ReadConfig(after)) && NoAllow(ReadConfig(before))
    ensures var ds := ReadConfig(before + ['\n'] + (RenderInclude(prose, helperPath, tunnels) + ['\n'] + after));
            && (Admitted(ds, env) ==> env("tun_up") && env("localnet"))
            && (forall exit :: CanLeave(ds, env, exit) ==> exit.Via? && Rendered(tunnels, exit.name))
    ensures !Admitted(ReadConfig(before) + ReadConfig(after), env)
  {
    RenderedIsClosed(prose, helperPath, tunnels);
    AssembledReads(before, RenderInclude(prose, helperPath, tunnels), after);
    IncludeReadsBack(prose, helperPath, tunnels);
    var b, a := ReadConfig(before), ReadConfig(after);
    NoAllowNeverAdmits(b, env);
    AdmittedExactly(b, helperPath, tunnels, a, env);
    forall exit { LeavesExactly(b, helperPath, tunnels, a, env, exit); }
    RulesConcat(b, a, HttpRule);
    FirstMatchConcat(Rules(b, HttpRule), [DENY_ALL], env);
    SimpleRulesMatch(env);
  }

  // ---------------------------------------------------------------- what a refused client is told

  /** The first rule whose terms all hold. */
  function Decider(rules: seq<Rule>, env: Acls): Option<Rule> {
    if rules == [] then None else if Matches(rules[0], env) then Some(rules[0]) else Decider(rules[1..], env)
  }

  /** The first `deny_info` that names the acl. */
  function PageFor(ds: seq<Directive>, acl: string): Option<string> {
    if ds == [] then None
    else if ds[0].DenyInfo? && acl in ds[0].acls then Some(ds[0].page)
    else PageFor(ds[1..], acl)
  }

  /** Squid answers with the page of the last acl of the rule that refused the request. */
  function DenialPage(ds: seq<Directive>, env: Acls): Option<string> {
    match Decider(Rules(ds, HttpRule), env)
    case Some(r) => if r.allow || r.terms == [] then None else PageFor(ds, Last(r.terms).acl)
    case None => None
  }

  predicate NoPage(ds: seq<Directive>, acl: string) {
    forall i :: 0 <= i < |ds| && ds[i].DenyInfo? ==> acl !in ds[i].acls
  }

  lemma {:induction false} UndecidedGoesOn(a: seq<Rule>, b: seq<Rule>, env: Acls)
    requires FirstMatch(a, env).None?
    ensures Decider(a + b, env) == Decider(b, env)
  {
    if a == [] {
      assert a + b == b;
    } else {
      assert (a + b)[1..] == a[1..] + b;
      UndecidedGoesOn(a[1..], b, env);
    }
  }

  lemma {:induction false} NoPageGoesOn(a: seq<Directive>, b: seq<Directive>, acl: string)
    requires NoPage(a, acl)
    ensures PageFor(a + b, acl) == PageFor(b, acl)
  {
    if a == [] {
      assert a + b == b;
    } else {
      assert (a + b)[1..] == a[1..] + b;
      NoPageGoesOn(a[1..], b, acl);
    }
  }

  lemma {:induction false} PeersHaveNoPage(tunnels: seq<Tunnel>, acl: string)
    ensures NoPage(PeerDirectives(tunnels), acl)
  {
    if tunnels != [] { PeersHaveNoPage(Front(tunnels), acl); }
  }

  lemma IncludePage(helperPath: string, tunnels: seq<Tunnel>, after: seq<Directive>)
    ensures PageFor(Include(helperPath, tunnels) + after, "tun_up") == Some("503:ERR_TUNNEL_DOWN")
  {
    var w, p := WiringBlock(helperPath), PeerDirectives(tunnels);
    PeersHaveNoPage(tunnels, "tun_up");
    var front := [CLOSED_BLOCK[0], CLOSED_BLOCK[1], CLOSED_BLOCK[2]];
    assert Include(helperPath, tunnels) + after == w + (p + (front + ([CLOSED_BLOCK[3]] + after)));
    NoPageGoesOn(w, p + (front + ([CLOSED_BLOCK[3]] + after)), "tun_up");
    NoPageGoesOn(p, front + ([CLOSED_BLOCK[3]] + after), "tun_up");
    NoPageGoesOn(front, [CLOSED_BLOCK[3]] + after, "tun_up");
    assert "tun_up" in CLOSED_BLOCK[3].acls;
  }

  /** A client that the base leaves to the include is told that the tunnel is down, with status 503, whenever
      it is. */
  lemma DownIsExplained(
    before: seq<Directive>, helperPath: string, tunnels: seq<Tunnel>, after: seq<Directive>, env: Acls)
    requires BaseOk(before, after) && NoPage(before, "tun_up")
    requires FirstMatch(Rules(before, HttpRule), env).None? && !env("tun_up")
    ensures DenialPage(before + Include(helperPath, tunnels) + after, env) == Some("503:ERR_TUNNEL_DOWN")
  {
    var inc := Include(helperPath, tunnels);
    IncludeRules(helperPath, tunnels, "", env);
    ThreeParts(before, inc, after, HttpRule);
    var b, tail := Rules(before, HttpRule), [DENY_TUN_DOWN, ALLOW_LOCALNET] + [DENY_ALL];
    assert Rules(before + inc + after, HttpRule) == b + tail;
    UndecidedGoesOn(b, tail, env);
    SimpleRulesMatch(env);
    assert Decider(tail, env) == Some(DENY_TUN_DOWN) && Last(DENY_TUN_DOWN.terms).acl == "tun_up";
    Assoc(before, inc, after);
    NoPageGoesOn(before, inc + after, "tun_up");
    IncludePage(helperPath, tunnels, after);
  }

  // ---------------------------------------------------------------- the shipped base

  /** The access rules of the shipped base, before and after its include line. */
  const SHIPPED_BEFORE: seq<Directive> :=
    [HttpAccess(Rule(false, [Term(true, "Safe_ports")])),
     HttpAccess(Rule(false, [Term(false, "CONNECT"), Term(true, "SSL_ports")])),
     HttpAccess(Rule(true, [Term(false, "localhost"), Term(false, "manager")])),
     HttpAccess(Rule(false, [Term(false, "manager")])),
     HttpAccess(Rule(true, [Term(false, "localhost")]))]

  const SHIPPED_AFTER: seq<Directive> := [HttpAccess(DENY_ALL)]

  /** A request that the shipped base admits before any tunnel check. */
  predicate FromThisHost(env: Acls) {
    env("localhost") && env("Safe_ports") && (env("CONNECT") ==> env("SSL_ports"))
  }

  lemma ShippedRulesAre()
    ensures Rules(SHIPPED_BEFORE, HttpRule)
         == [SHIPPED_BEFORE[0].rule, SHIPPED_BEFORE[1].rule, SHIPPED_BEFORE[2].rule, SHIPPED_BEFORE[3].rule,
             SHIPPED_BEFORE[4].rule]
    ensures BaseOk(SHIPPED_BEFORE, SHIPPED_AFTER)
  {
    var a, b := [SHIPPED_BEFORE[0], SHIPPED_BEFORE[1], SHIPPED_BEFORE[2]], [SHIPPED_BEFORE[3], SHIPPED_BEFORE[4]];
    assert SHIPPED_BEFORE == a + b;
    RulesConcat(a, b, HttpRule);
    RulesOfThree(a[0], a[1], a[2], HttpRule);
    assert b[1..] == [b[1]] && [b[1]][1..] == [] && Rules([b[1]], HttpRule) == [b[1].rule];
    assert SHIPPED_AFTER[1..] == [];
  }

  lemma FirstOfFive(a: Rule, b: Rule, c: Rule, d: Rule, e: Rule, env: Acls)
    ensures FirstMatch([a, b, c, d, e], env)
         == if Matches(a, env) then Some(a.allow) else if Matches(b, env) then Some(b.allow)
            else if Matches(c, env) then Some(c.allow) else if Matches(d, env) then Some(d.allow)
            else if Matches(e, env) then Some(e.allow) else None
  {
    assert [a, b, c, d, e][1..] == [b, c, d, e] && [b, c, d, e][1..] == [c, d, e];
    assert [c, d, e][1..] == [d, e] && [d, e][1..] == [e] && [e][1..] == [];
    assert FirstMatch([e], env) == if Matches(e, env) then Some(e.allow) else None;
    assert FirstMatch([d, e], env)
        == if Matches(d, env) then Some(d.allow) else if Matches(e, env) then Some(e.allow) else None;
    assert FirstMatch([b, c, d, e], env)
        == if Matches(b, env) then Some(b.allow)
           else if Matches(c, env) then Some(c.allow) else FirstMatch([d, e], env);
  }

  lemma OneTerm(allow: bool, t: Term, env: Acls)
    ensures Matches(Rule(allow, [t]), env) == Holds(t, env)
  {
    assert Rule(allow, [t]).terms[0] == t;
  }

  lemma TwoTerms(allow: bool, t: Term, u: Term, env: Acls)
    ensures Matches(Rule(allow, [t, u]), env) == (Holds(t, env) && Holds(u, env))
  {
    var r := Rule(allow, [t, u]);
    assert r.terms[0] == t && r.terms[1] == u;
  }

  lemma ShippedMatches(env: Acls)
    ensures Matches(SHIPPED_BEFORE[0].rule, env) == !env("Safe_ports")
    ensures Matches(SHIPPED_BEFORE[1].rule, env) == (env("CONNECT") && !env("SSL_ports"))
    ensures Matches(SHIPPED_BEFORE[2].rule, env) == (env("localhost") && env("manager"))
    ensures Matches(SHIPPED_BEFORE[3].rule, env) == env("manager")
    ensures Matches(SHIPPED_BEFORE[4].rule, env) == env("localhost")
  {
    OneTerm(false, Term(true, "Safe_ports"), env);
    TwoTerms(false, Term(false, "CONNECT"), Term(true, "SSL_ports"), env);
    TwoTerms(true, Term(false, "localhost"), Term(false, "manager"), env);
    OneTerm(false, Term(false, "manager"), env);
    OneTerm(true, Term(false, "localhost"), env);
  }

  lemma ShippedFirstMatch(env: Acls)
    ensures FirstMatch(Rules(SHIPPED_BEFORE, HttpRule), env) == Some(true) <==> FromThisHost(env)
    ensures FirstMatch(Rules(SHIPPED_BEFORE, HttpRule), env).Some? && !FromThisHost(env)
        ==> FirstMatch(Rules(SHIPPED_BEFORE, HttpRule), env) == Some(false)
  {
    ShippedRulesAre();
    ShippedMatches(env);
    FirstOfFive(SHIPPED_BEFORE[0].rule, SHIPPED_BEFORE[1].rule, SHIPPED_BEFORE[2].rule, SHIPPED_BEFORE[3].rule,
                SHIPPED_BEFORE[4].rule, env);
  }

  /** The shipped base is meant to fail closed when the include is missing. It does for every client
      but the proxy host itself: requests from localhost are admitted before the include and then
      leave directly. */
  lemma ShippedMissingInclude(env: Acls, exit: Exit)
    ensures CanLeave(SHIPPED_BEFORE + SHIPPED_AFTER, env, exit) <==> exit.Direct? && FromThisHost(env)
  {
    ShippedRulesAre();
    MissingIncludeExactly(SHIPPED_BEFORE, SHIPPED_AFTER, env, exit);
    ShippedFirstMatch(env);
  }

  /** With the include in place nothing leaves while the tunnel is down, localhost included: it is
      admitted, but finds no way out. */
  lemma ShippedFailsClosed(helperPath: string, tunnels: seq<Tunnel>, env: Acls)
    ensures var ds := SHIPPED_BEFORE + Include(helperPath, tunnels) + SHIPPED_AFTER;
            && (!env("tun_up") ==> forall exit :: !CanLeave(ds, env, exit))
            && (!env("tun_up") ==> (Admitted(ds, env) <==> FromThisHost(env)))
            && (Admitted(ds, env) ==> FromThisHost(env) || (env("tun_up") && env("localnet")))
            && (forall exit :: CanLeave(ds, env, exit) ==> exit.Via? && Rendered(tunnels, exit.name))
  {
    ShippedRulesAre();
    ShippedFirstMatch(env);
    AdmittedExactly(SHIPPED_BEFORE, helperPath, tunnels, SHIPPED_AFTER, env);
    forall exit {
      LeavesExactly(SHIPPED_BEFORE, helperPath, tunnels, SHIPPED_AFTER, env, exit);
    }
  }
}
