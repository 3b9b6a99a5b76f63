/** The generated Squid include (control-plane/internal/routing/routing.go), as text, and what Squid
    makes of it: directives read line by line, access rules decided by the first match.

    The prose of the template's comments does not matter to Squid; it enters as arbitrary comment
    lines. */
module Squid {
  import opened Text
  import opened ConfigText
  import opened Names

  datatype Tunnel = Tunnel(profile: string, name: string, peerHost: string, peerPort: nat)

  // ---------------------------------------------------------------- rendering

  /** The comments of the template: above everything, above the fail-closed block, and the words
      around a peer's name, host and port. */
  datatype Prose = Prose(header: seq<string>, banner: seq<string>, via: string, ifUp: string)

  predicate Comment(line: string) { line != "" && line[0] == '#' && Free(line, '\n') }

  ghost predicate ProseOk(p: Prose) {
    && (forall i :: 0 <= i < |p.header| ==> Comment(p.header[i]))
    && (forall i :: 0 <= i < |p.banner| ==> Comment(p.banner[i]))
    && Free(p.via, '\n') && Free(p.ifUp, '\n')
  }

  const DEFAULT_HELPER_PATH := "/usr/lib/helix-proxy/acl-helper"

  function HelperPath(path: string): string { if path == "" then DEFAULT_HELPER_PATH else path }

  function WiringWords(helperPath: string): seq<seq<string>> {
    [["external_acl_type", "vpn_route", "ttl=0", "negative_ttl=0", "%>ha{Host}", HelperPath(helperPath)],
     ["acl", "tun_up", "external", "vpn_route"]]
  }

  function PeerWords(t: Tunnel): seq<seq<string>> {
    [["cache_peer", t.peerHost, "parent", Decimal(t.peerPort), "0", "no-query", "name=" + t.name],
     ["cache_peer_access", t.name, "allow", "tun_up"],
     ["cache_peer_access", t.name, "deny", "all"]]
  }

  const FAIL_CLOSED_WORDS: seq<seq<string>> :=
    [["never_direct", "allow", "all"],
     ["http_access", "deny", "!tun_up"],
     ["http_access", "allow", "localnet"],
     ["deny_info", "503:ERR_TUNNEL_DOWN", "tun_up"]]

  function LinesOf(words: seq<seq<string>>): (r: seq<string>)
    ensures |r| == |words| && forall i :: 0 <= i < |r| ==> r[i] == Join(words[i], ' ')
  {
    seq(|words|, i requires 0 <= i < |words| => Join(words[i], ' '))
  }

  function PeerComment(prose: Prose, t: Tunnel): string {
    "# " + t.name + prose.via + t.peerHost + ":" + Decimal(t.peerPort) + prose.ifUp
  }

  function TunnelLines(prose: Prose, t: Tunnel): seq<string> { ["", PeerComment(prose, t)] + LinesOf(PeerWords(t)) }

  function AllTunnelLines(prose: Prose, tunnels: seq<Tunnel>): seq<string> {
    if tunnels == [] then [] else AllTunnelLines(prose, Front(tunnels)) + TunnelLines(prose, Last(tunnels))
  }

  function IncludeLines(prose: Prose, helperPath: string, tunnels: seq<Tunnel>): seq<string> {
    prose.header + LinesOf(WiringWords(helperPath)) + AllTunnelLines(prose, tunnels)
    + [""] + prose.banner + LinesOf(FAIL_CLOSED_WORDS) + [""]
  }

  /** `RenderSquidInclude`. */
  function RenderInclude(prose: Prose, helperPath: string, tunnels: seq<Tunnel>): string {
    Join(IncludeLines(prose, helperPath, tunnels), '\n')
  }

  // ---------------------------------------------------------------- reading

  datatype Term = Term(negated: bool, acl: string)

  datatype Rule = Rule(allow: bool, terms: seq<Term>)

  datatype Directive =
    | CachePeer(host: string, kind: string, port: nat, icpPort: nat, options: seq<string>, name: string)
    | PeerAccess(name: string, rule: Rule)
    | NeverDirect(rule: Rule)
    | AlwaysDirect(rule: Rule)
    | HttpAccess(rule: Rule)
    | ExternalAcl(
        name: string, ttl: nat, negativeTtl: nat, options: seq<string>, format: seq<string>, command: seq<string>)
    | AclDef(name: string, kind: string, values: seq<string>)
    | DenyInfo(page: string, acls: seq<string>)
    | Unread(words: seq<string>)
    | Other(words: seq<string>)

  function ReadTerm(w: string): Term {
    if w != "" && w[0] == '!' then Term(true, w[1..]) else Term(false, w)
  }

  function ReadTerms(words: seq<string>): seq<Term> {
    if words == [] then [] else [ReadTerm(words[0])] + ReadTerms(words[1..])
  }

  function ReadRule(words: seq<string>): Rule
    requires |words| > 0
  {
    Rule(words[0] == "allow", ReadTerms(words[1..]))
  }

  /** The directives that decide who is let in and which way a request goes, those that bring in more of
      them or leave some out, and the one that changes how words are read. */
  predicate Routes(word: string) {
    || word == "cache_peer" || word == "cache_peer_access" || word == "never_direct" || word == "always_direct"
    || word == "http_access" || word == "include" || word == "if" || word == "else" || word == "endif"
    || word == "configuration_includes_quoted_values"
  }

  /** The last `name=` option names a peer, else its host does. */
  function NameOption(host: string, options: seq<string>): string {
    if options == [] then host
    else if "name=" <= Last(options) then Last(options)[5..]
    else NameOption(host, Front(options))
  }

  predicate Percent(word: string) { word != "" && word[0] == '%' }

  /** The options of an external acl end where its format begins. */
  function OptionCount(words: seq<string>): (n: nat)
    ensures n <= |words|
  {
    if words == [] || Percent(words[0]) then 0 else 1 + OptionCount(words[1..])
  }

  /** The format ends where the helper's command begins. */
  function FormatCount(words: seq<string>): (n: nat)
    ensures n <= |words|
  {
    if words == [] || !Percent(words[0]) then 0 else 1 + FormatCount(words[1..])
  }

  /** The last option of this key sets the number. */
  function NumberOption(options: seq<string>, key: string, otherwise: nat): nat {
    if options == [] then otherwise
    else if key <= Last(options) && Last(options) != key && AllDigits(Last(options)[|key|..]) then
      DigitsValue(Last(options)[|key|..])
    else NumberOption(Front(options), key, otherwise)
  }

  /** `external_acl_type name [option ...] %format ... command [argument ...]`. An answer is kept for an
      hour unless `ttl` says otherwise, and a refusal as long as any answer unless `negative_ttl` does. */
  function ReadExternal(words: seq<string>): Directive
    requires |words| > 1
  {
    var rest := words[2..];
    var i := OptionCount(rest);
    var j := i + FormatCount(rest[i..]);
    var ttl := NumberOption(rest[..i], "ttl=", 3600);
    if i < j < |rest| then
      ExternalAcl(words[1], ttl, NumberOption(rest[..i], "negative_ttl=", ttl), rest[..i], rest[i..j], rest[j..])
    else Other(words)
  }

  /** A line whose first word routes but which does not have the directive's form is `Unread`. */
  function ReadWords(words: seq<string>): Directive {
    if && |words| >= 5 && words[0] == "cache_peer"
       && words[3] != "" && AllDigits(words[3]) && words[4] != "" && AllDigits(words[4])
    then
      CachePeer(words[1], words[2], DigitsValue(words[3]), DigitsValue(words[4]), words[5..],
                NameOption(words[1], words[5..]))
    else if |words| > 2 && words[0] == "cache_peer_access" then PeerAccess(words[1], ReadRule(words[2..]))
    else if |words| > 1 && words[0] == "never_direct" then NeverDirect(ReadRule(words[1..]))
    else if |words| > 1 && words[0] == "always_direct" then AlwaysDirect(ReadRule(words[1..]))
    else if |words| > 1 && words[0] == "http_access" then HttpAccess(ReadRule(words[1..]))
    else if |words| > 0 && Routes(words[0]) then Unread(words)
    else if |words| > 1 && words[0] == "external_acl_type" then ReadExternal(words)
    else if |words| > 3 && words[0] == "acl" then AclDef(words[1], words[2], words[3..])
    else if |words| > 2 && words[0] == "deny_info" then DenyInfo(words[1], words[2..])
    else Other(words)
  }

  /** The directive of one directive line, or nothing for one that holds only a comment. */
  function ReadLine(line: string): seq<Directive> {
    var words := LineWords(line);
    if words == [] then [] else [ReadWords(words)]
  }

  function ReadAll(lines: seq<string>): seq<Directive> {
    if lines == [] then [] else ReadAll(Front(lines)) + ReadLine(Last(lines))
  }

  /** The directives of physical lines. */
  function ReadLines(lines: seq<string>): seq<Directive> { ReadAll(Logical(lines, "")) }

  function ReadConfig(text: string): seq<Directive> { ReadLines(Split(text, '\n')) }

  // ---------------------------------------------------------------- reading back what was rendered

  const DENY_ALL := Rule(false, [Term(false, "all")])
  const ALLOW_ALL := Rule(true, [Term(false, "all")])
  const ALLOW_TUN_UP := Rule(true, [Term(false, "tun_up")])
  const DENY_TUN_DOWN := Rule(false, [Term(true, "tun_up")])
  const ALLOW_LOCALNET := Rule(true, [Term(false, "localnet")])

  function PeerBlock(t: Tunnel): seq<Directive> {
    [CachePeer(t.peerHost, "parent", t.peerPort, 0, ["no-query", "name=" + t.name], t.name),
     PeerAccess(t.name, ALLOW_TUN_UP), PeerAccess(t.name, DENY_ALL)]
  }

  function PeerDirectives(tunnels: seq<Tunnel>): seq<Directive> {
    if tunnels == [] then [] else PeerDirectives(Front(tunnels)) + PeerBlock(Last(tunnels))
  }

  const CLOSED_BLOCK: seq<Directive> :=
    [NeverDirect(ALLOW_ALL), HttpAccess(DENY_TUN_DOWN), HttpAccess(ALLOW_LOCALNET),
     DenyInfo("503:ERR_TUNNEL_DOWN", ["tun_up"])]

  /** `tun_up` is what the helper says of the request's Host header, and no answer is kept. */
  function WiringBlock(helperPath: string): seq<Directive> {
    var command := [if helperPath == "" then "/usr/lib/helix-proxy/acl-helper" else helperPath];
    [ExternalAcl("vpn_route", 0, 0, ["ttl=0", "negative_ttl=0"], ["%>ha{Host}"], command),
     AclDef("tun_up", "external", ["vpn_route"])]
  }

  /** What the include should say. */
  function Include(helperPath: string, tunnels: seq<Tunnel>): seq<Directive> {
    WiringBlock(helperPath) + PeerDirectives(tunnels) + CLOSED_BLOCK
  }

  predicate Rendered(tunnels: seq<Tunnel>, name: string) {
    exists i :: 0 <= i < |tunnels| && tunnels[i].name == name
  }

  // ---------------------------------------------------------------- joining lines

  lemma {:induction false} ReadAllConcat(a: seq<string>, b: seq<string>)
    ensures ReadAll(a + b) == ReadAll(a) + ReadAll(b)
  {
    if b == [] {
      assert a + b == a;
    } else {
      assert Front(a + b) == a + Front(b) && Last(a + b) == Last(b);
      ReadAllConcat(a, Front(b));
    }
  }

  /** Lines that leave nothing open read the same whatever follows. */
  lemma ReadLinesConcat(a: seq<string>, b: seq<string>)
    requires Open(a, "") == ""
    ensures ReadLines(a + b) == ReadLines(a) + ReadLines(b)
  {
    LogicalConcat(a, b, "");
    ReadAllConcat(Logical(a, ""), Logical(b, ""));
  }

  /** The lines are skipped: blank or comments. */
  predicate Skipped(lines: seq<string>) { forall i :: 0 <= i < |lines| ==> Content(lines[i]) == "" }

  lemma {:induction false} SkippedAdd(lines: seq<string>, open: string)
    requires Skipped(lines)
    ensures Logical(lines, open) == [] && Open(lines, open) == open && Endings(lines) == 0
  {
    if lines != [] {
      assert Content(lines[0]) == "";
      SkippedAdd(lines[1..], open);
    }
  }

  lemma SkippedAfterRead(lines: seq<string>, skipped: seq<string>)
    requires Skipped(skipped)
    ensures ReadLines(lines + skipped) == ReadLines(lines)
  {
    LogicalConcat(lines, skipped, "");
    SkippedAdd(skipped, Open(lines, ""));
    assert Logical(lines, "") + [] == Logical(lines, "");
  }

  lemma SkippedBeforeRead(skipped: seq<string>, lines: seq<string>)
    requires Skipped(skipped)
    ensures ReadLines(skipped + lines) == ReadLines(lines)
  {
    LogicalConcat(skipped, lines, "");
    SkippedAdd(skipped, "");
    assert [] + Logical(lines, "") == Logical(lines, "");
  }

  lemma CommentIsSkipped(line: string)
    requires Comment(line)
    ensures Content(line) == "" && Ends(line)
  {
    var t := line[..IndexOf(line, '\r')];
    assert IndexOf(line, '\r') > 0 && t[0] == '#';
  }

  lemma CommentsAreSkipped(lines: seq<string>)
    requires forall i :: 0 <= i < |lines| ==> Comment(lines[i])
    ensures Skipped(lines) && OneLiners(lines)
  {
    forall i | 0 <= i < |lines| ensures Content(lines[i]) == "" { CommentIsSkipped(lines[i]); }
  }

  lemma BlankIsSkipped()
    ensures Content("") == "" && Skipped([""]) && OneLiners([""])
  {
    assert IndexOf("", '\r') == 0;
  }

  /** No newline in any of them, and none goes on in the next. */
  predicate OneLiners(lines: seq<string>) { forall i :: 0 <= i < |lines| ==> Free(lines[i], '\n') && Ends(lines[i]) }

  predicate NewlineFree(lines: seq<string>) { forall i :: 0 <= i < |lines| ==> Free(lines[i], '\n') }

  lemma OneLinersClose(lines: seq<string>)
    requires OneLiners(lines)
    ensures Open(lines, "") == "" && NewlineFree(lines)
  {
    AllEndLeavesNothing(lines);
  }

  lemma OneLinersConcat(a: seq<string>, b: seq<string>)
    requires OneLiners(a) && OneLiners(b)
    ensures OneLiners(a + b)
  {
  }

  lemma NewlineFreeConcat(a: seq<string>, b: seq<string>)
    requires NewlineFree(a) && NewlineFree(b)
    ensures NewlineFree(a + b)
  {
  }

  // ---------------------------------------------------------------- lines of words

  /** A line of these words reads as them. */
  predicate Directly(words: seq<string>) { Lineable(words) && EndWord(Last(words)) }

  lemma WordsRead(words: seq<string>)
    requires Directly(words)
    ensures var line := Join(words, ' ');
            Content(line) == line != "" && Ends(line) && Free(line, '\n') && ReadLine(line) == [ReadWords(words)]
  {
    ContentOfWords(words);
    LineWordsExactly(words);
  }

  function Contents(lines: seq<string>): (r: seq<string>)
    ensures |r| == |lines| && forall i :: 0 <= i < |r| ==> r[i] == Content(lines[i])
  {
    seq(|lines|, i requires 0 <= i < |lines| => Content(lines[i]))
  }

  lemma {:induction false} LogicalEach(lines: seq<string>)
    requires forall i :: 0 <= i < |lines| ==> Content(lines[i]) != "" && Ends(lines[i])
    ensures Logical(lines, "") == Contents(lines)
  {
    if lines != [] {
      assert Content(lines[0]) != "" && Ends(lines[0]);
      LogicalEach(lines[1..]);
      assert "" + Content(lines[0]) == Content(lines[0]);
      assert Contents(lines) == [Content(lines[0])] + Contents(lines[1..]);
    }
  }

  predicate ReadsAs(line: string, d: Directive) { ReadLine(line) == [d] }

  lemma {:induction false} ReadAllEach(lines: seq<string>, ds: seq<Directive>)
    requires |lines| == |ds| && forall i :: 0 <= i < |lines| ==> ReadsAs(lines[i], ds[i])
    ensures ReadAll(lines) == ds
  {
    if lines != [] {
      var n := |lines| - 1;
      assert ReadsAs(lines[n], ds[n]) && Front(ds) + [ds[n]] == ds;
      ReadAllEach(Front(lines), Front(ds));
    }
  }

  lemma OneRead(line: string)
    requires Content(line) != "" && Ends(line)
    ensures ReadLines([line]) == ReadLine(Content(line))
  {
    OneLogical(line);
    var whole := Content(line);
    assert Front([whole]) == [] && Last([whole]) == whole;
    assert ReadAll([whole]) == ReadAll([]) + ReadLine(whole);
  }

  lemma ReadWordLines(words: seq<seq<string>>, ds: seq<Directive>)
    requires |words| == |ds|
    requires forall i :: 0 <= i < |words| ==> Directly(words[i]) && ReadWords(words[i]) == ds[i]
    ensures ReadLines(LinesOf(words)) == ds && OneLiners(LinesOf(words))
  {
    var lines := LinesOf(words);
    forall i | 0 <= i < |lines|
      ensures Content(lines[i]) != "" && ReadLine(Content(lines[i])) == [ds[i]]
      ensures Free(lines[i], '\n') && Ends(lines[i])
    {
      WordsRead(words[i]);
    }
    LogicalEach(lines);
    ReadAllEach(Contents(lines), ds);
  }

  // ---------------------------------------------------------------- the blocks of the include

  ghost predicate TunnelOk(t: Tunnel) { ConfigWord(t.peerHost) && Plain(t.name) }

  lemma PlainIsWord(s: string)
    requires Plain(s)
    ensures EndWord(s)
  {
    assert PlainChar(s[0]) && PlainChar(Last(s));
  }

  /** A visible word of ASCII that does not start a comment. */
  lemma Literal(w: string)
    requires w != "" && w[0] != '#' && Last(w) != '\\' && forall i :: 0 <= i < |w| ==> ' ' < w[i] < '\U{7F}'
    ensures EndWord(w)
  {
    assert ' ' < Last(w) < '\U{7F}';
  }

  lemma PeerLineReads(t: Tunnel)
    ensures ReadWords(PeerWords(t)[0]) == PeerBlock(t)[0]
  {
    assert DigitsValue("0") == 0;
    DecimalValue(t.peerPort);
    var name := "name=" + t.name;
    assert name[5..] == t.name && PeerWords(t)[0][5..] == ["no-query", name];
  }

  lemma NameWord(name: string)
    requires Plain(name)
    ensures EndWord("name=" + name)
  {
    PlainIsWord(name);
    assert Last("name=" + name) == Last(name);
  }

  lemma PeerLineIsWords(t: Tunnel)
    requires TunnelOk(t)
    ensures Directly(PeerWords(t)[0])
  {
    assert IsDigit(Decimal(t.peerPort)[0]);
    NameWord(t.name);
    Literal("cache_peer");
    Literal("parent");
    Literal("0");
    Literal("no-query");
  }

  lemma AccessLinesRead(t: Tunnel)
    requires TunnelOk(t)
    ensures Directly(PeerWords(t)[1]) && ReadWords(PeerWords(t)[1]) == PeerAccess(t.name, ALLOW_TUN_UP)
    ensures Directly(PeerWords(t)[2]) && ReadWords(PeerWords(t)[2]) == PeerAccess(t.name, DENY_ALL)
  {
    PlainIsWord(t.name);
    AccessLineReads(t.name, "allow", "tun_up");
    AccessLineReads(t.name, "deny", "all");
    Literal("cache_peer_access");
    Literal("allow");
    Literal("tun_up");
    Literal("deny");
    Literal("all");
  }

  lemma AccessLineReads(name: string, action: string, term: string)
    ensures ReadWords(["cache_peer_access", name, action, term])
         == PeerAccess(name, Rule(action == "allow", [ReadTerm(term)]))
  {
    assert ["cache_peer_access", name, action, term][2..] == [action, term];
    RuleReads(action, term);
  }

  lemma RuleReads(action: string, term: string)
    ensures ReadRule([action, term]) == Rule(action == "allow", [ReadTerm(term)])
  {
    assert [action, term][1..] == [term] && ReadTerms([term]) == [ReadTerm(term)];
  }

  lemma PeerCommentIsComment(prose: Prose, t: Tunnel)
    requires TunnelOk(t) && ProseOk(prose)
    ensures Comment(PeerComment(prose, t))
  {
    var port := Decimal(t.peerPort);
    DigitsAreToken(port);
    assert Free(t.name, '\n') && Free(t.peerHost, '\n');
    FreeConcat("# ", t.name, '\n');
    FreeConcat("# " + t.name, prose.via, '\n');
    FreeConcat("# " + t.name + prose.via, t.peerHost, '\n');
    FreeConcat("# " + t.name + prose.via + t.peerHost, ":", '\n');
    FreeConcat("# " + t.name + prose.via + t.peerHost + ":", port, '\n');
    FreeConcat("# " + t.name + prose.via + t.peerHost + ":" + port, prose.ifUp, '\n');
  }

  lemma HeadingIsSkipped(comment: string)
    requires Comment(comment)
    ensures Skipped(["", comment]) && OneLiners(["", comment])
  {
    BlankIsSkipped();
    CommentIsSkipped(comment);
  }

  /** Skipped lines above a block add nothing to it. */
  lemma HeadedBlockReads(heading: seq<string>, block: seq<string>)
    requires Skipped(heading) && OneLiners(heading) && OneLiners(block)
    ensures ReadLines(heading + block) == ReadLines(block)
    ensures OneLiners(heading + block)
  {
    SkippedBeforeRead(heading, block);
    OneLinersConcat(heading, block);
  }

  lemma TunnelLinesRead(prose: Prose, t: Tunnel)
    requires TunnelOk(t) && ProseOk(prose)
    ensures ReadLines(TunnelLines(prose, t)) == PeerBlock(t)
    ensures OneLiners(TunnelLines(prose, t))
  {
    PeerLineReads(t);
    PeerLineIsWords(t);
    AccessLinesRead(t);
    ReadWordLines(PeerWords(t), PeerBlock(t));
    PeerCommentIsComment(prose, t);
    HeadingIsSkipped(PeerComment(prose, t));
    HeadedBlockReads(["", PeerComment(prose, t)], LinesOf(PeerWords(t)));
  }

  lemma {:induction false} AllTunnelLinesRead(prose: Prose, tunnels: seq<Tunnel>)
    requires ProseOk(prose)
    requires forall i :: 0 <= i < |tunnels| ==> TunnelOk(tunnels[i])
    ensures ReadLines(AllTunnelLines(prose, tunnels)) == PeerDirectives(tunnels)
    ensures OneLiners(AllTunnelLines(prose, tunnels))
  {
    if tunnels != [] {
      var before, last := AllTunnelLines(prose, Front(tunnels)), TunnelLines(prose, Last(tunnels));
      AllTunnelLinesRead(prose, Front(tunnels));
      TunnelLinesRead(prose, Last(tunnels));
      OneLinersClose(before);
      ReadLinesConcat(before, last);
      OneLinersConcat(before, last);
    }
  }

  lemma WiringLineable(helperPath: string)
    requires ConfigWord(HelperPath(helperPath))
    ensures Lineable(WiringWords(helperPath)[0]) && Directly(WiringWords(helperPath)[1])
    ensures ReadWords(WiringWords(helperPath)[1]) == WiringBlock(helperPath)[1]
  {
    HelperLineWords(helperPath);
    AclLineWords(helperPath);
  }

  lemma HelperLineWords(helperPath: string)
    requires ConfigWord(HelperPath(helperPath))
    ensures Lineable(WiringWords(helperPath)[0])
  {
    Literal("external_acl_type");
    Literal("vpn_route");
    Literal("ttl=0");
    Literal("negative_ttl=0");
    Literal("%>ha{Host}");
  }

  lemma AclLineWords(helperPath: string)
    ensures Directly(WiringWords(helperPath)[1])
    ensures ReadWords(WiringWords(helperPath)[1]) == WiringBlock(helperPath)[1]
  {
    assert "acl"[1] == 'c' && |"acl"| == 3;
    assert WiringWords(helperPath)[1][3..] == ["vpn_route"];
    Literal("acl");
    Literal("tun_up");
    Literal("external");
    Literal("vpn_route");
  }

  /** The path can stand at the end of the helper's line and does not look like more of the format. */
  predicate HelperOk(helperPath: string) { EndWord(HelperPath(helperPath)) && !Percent(HelperPath(helperPath)) }

  lemma WiringOptions()
    ensures var options := ["ttl=0", "negative_ttl=0"];
            NumberOption(options, "ttl=", 3600) == 0 && NumberOption(options, "negative_ttl=", 0) == 0
  {
    var options := ["ttl=0", "negative_ttl=0"];
    assert Front(options) == ["ttl=0"] && Last(options)[|"negative_ttl="|..] == "0" && "ttl=0"[|"ttl="|..] == "0";
    assert options[1][0] == 'n' && DigitsValue("0") == 0;
    assert NumberOption(["ttl=0"], "ttl=", 3600) == 0;
  }

  lemma WiringCounts(path: string)
    ensures var rest := ["ttl=0", "negative_ttl=0", "%>ha{Host}", path];
            OptionCount(rest) == 2 && FormatCount(rest[2..]) == if Percent(path) then 2 else 1
  {
    var rest := ["ttl=0", "negative_ttl=0", "%>ha{Host}", path];
    assert rest[1..] == ["negative_ttl=0", "%>ha{Host}", path] && rest[1..][1..] == ["%>ha{Host}", path];
    assert OptionCount(rest[1..][1..]) == 0 && OptionCount(rest[1..]) == 1;
    assert rest[2..][1..] == [path] && [path][1..] == [] && FormatCount([path]) == if Percent(path) then 1 else 0;
  }

  /** The helper's line reads as the wiring exactly when the path does not start as a format does. */
  lemma HelperWordsRead(helperPath: string)
    ensures ReadWords(WiringWords(helperPath)[0]) == WiringBlock(helperPath)[0] <==> !Percent(HelperPath(helperPath))
  {
    var words, path := WiringWords(helperPath)[0], HelperPath(helperPath);
    ExternalRead(words);
    var rest := ["ttl=0", "negative_ttl=0", "%>ha{Host}", path];
    assert words[2..] == rest;
    WiringCounts(path);
    WiringOptions();
    assert rest[..2] == ["ttl=0", "negative_ttl=0"] && rest[2..3] == ["%>ha{Host}"] && rest[3..] == [path];
  }

  lemma ExternalRead(words: seq<string>)
    requires |words| > 1 && words[0] == "external_acl_type"
    ensures ReadWords(words) == ReadExternal(words)
  {
    assert words[0][0] == 'e' && words[0][1] == 'x';
  }

  lemma WiringReads(helperPath: string)
    requires HelperOk(helperPath)
    ensures ReadLines(LinesOf(WiringWords(helperPath))) == WiringBlock(helperPath)
    ensures OneLiners(LinesOf(WiringWords(helperPath)))
  {
    WiringLineable(helperPath);
    HelperWordsRead(helperPath);
    ReadWordLines(WiringWords(helperPath), WiringBlock(helperPath));
  }

  lemma NeverDirectReads()
    ensures Directly(FAIL_CLOSED_WORDS[0]) && ReadWords(FAIL_CLOSED_WORDS[0]) == NeverDirect(ALLOW_ALL)
  {
    Literal("never_direct");
    Literal("allow");
    Literal("all");
    assert FAIL_CLOSED_WORDS[0][1..] == ["allow", "all"];
    RuleReads("allow", "all");
  }

  lemma HttpDenyReads()
    ensures Directly(FAIL_CLOSED_WORDS[1]) && ReadWords(FAIL_CLOSED_WORDS[1]) == HttpAccess(DENY_TUN_DOWN)
  {
    Literal("http_access");
    Literal("deny");
    Literal("!tun_up");
    assert FAIL_CLOSED_WORDS[1][1..] == ["deny", "!tun_up"] && "!tun_up"[1..] == "tun_up";
    RuleReads("deny", "!tun_up");
  }

  lemma HttpAllowReads()
    ensures Directly(FAIL_CLOSED_WORDS[2]) && ReadWords(FAIL_CLOSED_WORDS[2]) == HttpAccess(ALLOW_LOCALNET)
  {
    Literal("http_access");
    Literal("allow");
    Literal("localnet");
    assert FAIL_CLOSED_WORDS[2][1..] == ["allow", "localnet"];
    RuleReads("allow", "localnet");
  }

  lemma DenyInfoLine(page: string, acl: string)
    ensures ReadWords(["deny_info", page, acl]) == DenyInfo(page, [acl])
  {
    var words := ["deny_info", page, acl];
    assert words[0][0] == 'd' && words[2..] == [acl];
  }

  lemma DenyInfoReads()
    ensures Directly(FAIL_CLOSED_WORDS[3])
    ensures ReadWords(FAIL_CLOSED_WORDS[3]) == DenyInfo("503:ERR_TUNNEL_DOWN", ["tun_up"])
  {
    Literal("deny_info");
    Literal("503:ERR_TUNNEL_DOWN");
    Literal("tun_up");
    DenyInfoLine("503:ERR_TUNNEL_DOWN", "tun_up");
  }

  lemma FailClosedReads()
    ensures ReadLines(LinesOf(FAIL_CLOSED_WORDS)) == CLOSED_BLOCK
    ensures OneLiners(LinesOf(FAIL_CLOSED_WORDS))
  {
    NeverDirectReads();
    HttpDenyReads();
    HttpAllowReads();
    DenyInfoReads();
    ReadWordLines(FAIL_CLOSED_WORDS, CLOSED_BLOCK);
  }

  // ---------------------------------------------------------------- the whole include

  lemma Assoc<T>(a: seq<T>, b: seq<T>, c: seq<T>)
    ensures a + b + c == a + (b + c)
  {
  }

  lemma HeadReads(header: seq<string>, wiring: seq<string>, peers: seq<string>)
    requires Skipped(header) && Open(wiring, "") == ""
    ensures ReadLines(header + wiring + peers) == ReadLines(wiring) + ReadLines(peers)
  {
    Assoc(header, wiring, peers);
    SkippedBeforeRead(header, wiring + peers);
    ReadLinesConcat(wiring, peers);
  }

  /** Comment blocks and blank lines between blocks add nothing to a configuration. */
  lemma TailReads(before: seq<string>, banner: seq<string>, closed: seq<string>)
    requires Skipped(banner) && Open(before, "") == ""
    ensures ReadLines(before + [""] + banner + closed + [""]) == ReadLines(before) + ReadLines(closed)
  {
    BlankIsSkipped();
    calc {
      ReadLines(before + [""] + banner + closed + [""]);
      { SkippedAfterRead(before + [""] + banner + closed, [""]); }
      ReadLines(before + [""] + banner + closed);
      { Names.Regroup(before, [""], banner, closed); }
      ReadLines(before + ([""] + banner + closed));
      { ReadLinesConcat(before, [""] + banner + closed); }
      ReadLines(before) + ReadLines([""] + banner + closed);
      { SkippedBeforeRead([""] + banner, closed); }
      ReadLines(before) + ReadLines(closed);
    }
  }

  lemma OpenConcat(a: seq<string>, b: seq<string>)
    requires Open(a, "") == "" && Open(b, "") == ""
    ensures Open(a + b, "") == ""
  {
    OpenOfConcat(a, b, "");
  }

  lemma {:induction false} OpenOfConcat(a: seq<string>, b: seq<string>, open: string)
    ensures Open(a + b, open) == Open(b, Open(a, open))
  {
    if a == [] {
      assert a + b == b;
    } else {
      assert (a + b)[1..] == a[1..] + b;
      var part := Content(a[0]);
      if part == "" { OpenOfConcat(a[1..], b, open); }
      else if Last(part) == '\\' { OpenOfConcat(a[1..], b, open + Front(part)); }
      else { OpenOfConcat(a[1..], b, ""); }
    }
  }

  /** A configuration in sections reads section by section. */
  lemma SectionsRead(
    header: seq<string>, wiring: seq<string>, peers: seq<string>, banner: seq<string>, closed: seq<string>)
    requires Skipped(header) && Skipped(banner) && Open(wiring, "") == "" && Open(peers, "") == ""
    ensures ReadLines(header + wiring + peers + [""] + banner + closed + [""])
         == ReadLines(wiring) + ReadLines(peers) + ReadLines(closed)
  {
    SkippedAdd(header, "");
    OpenConcat(header, wiring);
    OpenConcat(header + wiring, peers);
    HeadReads(header, wiring, peers);
    TailReads(header + wiring + peers, banner, closed);
  }

  lemma SectionsSplit(
    header: seq<string>, wiring: seq<string>, peers: seq<string>, banner: seq<string>, closed: seq<string>)
    requires NewlineFree(header) && NewlineFree(wiring) && NewlineFree(peers)
    requires NewlineFree(banner) && NewlineFree(closed)
    ensures var lines := header + wiring + peers + [""] + banner + closed + [""];
            Split(Join(lines, '\n'), '\n') == lines
  {
    NewlineFreeConcat(header, wiring);
    NewlineFreeConcat(header + wiring, peers);
    NewlineFreeConcat(header + wiring + peers, [""]);
    NewlineFreeConcat(header + wiring + peers + [""], banner);
    NewlineFreeConcat(header + wiring + peers + [""] + banner, closed);
    NewlineFreeConcat(header + wiring + peers + [""] + banner + closed, [""]);
    SplitOfJoin(header + wiring + peers + [""] + banner + closed + [""], '\n');
  }

  /** The rendered text is its lines, even if the helper's path gets lost at the end of one. */
  lemma RenderedLines(prose: Prose, helperPath: string, tunnels: seq<Tunnel>)
    requires ProseOk(prose) && ConfigWord(HelperPath(helperPath))
    requires forall i :: 0 <= i < |tunnels| ==> TunnelOk(tunnels[i])
    ensures Split(RenderInclude(prose, helperPath, tunnels), '\n') == IncludeLines(prose, helperPath, tunnels)
  {
    var wiring := LinesOf(WiringWords(helperPath));
    WiringLineable(helperPath);
    ContentOfWords(WiringWords(helperPath)[0]);
    ContentOfWords(WiringWords(helperPath)[1]);
    assert NewlineFree(wiring);
    AllTunnelLinesRead(prose, tunnels);
    FailClosedReads();
    SectionsSplit(prose.header, wiring, AllTunnelLines(prose, tunnels), prose.banner, LinesOf(FAIL_CLOSED_WORDS));
  }

  /** If the wiring leaves nothing open, the rendered text reads as the wiring, the peers and the
      fail-closed block. */
  lemma RenderedReads(prose: Prose, helperPath: string, tunnels: seq<Tunnel>)
    requires ProseOk(prose) && ConfigWord(HelperPath(helperPath)) && Open(LinesOf(WiringWords(helperPath)), "") == ""
    requires forall i :: 0 <= i < |tunnels| ==> TunnelOk(tunnels[i])
    ensures ReadConfig(RenderInclude(prose, helperPath, tunnels))
         == ReadLines(LinesOf(WiringWords(helperPath))) + PeerDirectives(tunnels) + CLOSED_BLOCK
  {
    RenderedLines(prose, helperPath, tunnels);
    CommentsAreSkipped(prose.header);
    CommentsAreSkipped(prose.banner);
    AllTunnelLinesRead(prose, tunnels);
    OneLinersClose(AllTunnelLines(prose, tunnels));
    FailClosedReads();
    SectionsRead(prose.header, LinesOf(WiringWords(helperPath)), AllTunnelLines(prose, tunnels),
                 prose.banner, LinesOf(FAIL_CLOSED_WORDS));
  }

  /** Reading the rendered text gives exactly the wiring, one peer with its allow and its deny per
      tunnel in order, and the fail-closed block once. */
  lemma IncludeReadsBack(prose: Prose, helperPath: string, tunnels: seq<Tunnel>)
    requires ProseOk(prose) && HelperOk(helperPath)
    requires forall i :: 0 <= i < |tunnels| ==> TunnelOk(tunnels[i])
    ensures ReadConfig(RenderInclude(prose, helperPath, tunnels)) == Include(helperPath, tunnels)
  {
    WiringReads(helperPath);
    OneLinersClose(LinesOf(WiringWords(helperPath)));
    RenderedReads(prose, helperPath, tunnels);
  }

  // ---------------------------------------------------------------- and nothing else reads back

  /** What reading can give: hosts and words are words. */
  ghost predicate Readable(d: Directive) {
    && (d.CachePeer? ==> ConfigWord(d.host))
    && (d.ExternalAcl? ==> forall i :: 0 <= i < |d.command| ==> ConfigWord(d.command[i]))
  }

  lemma WordsAreReadable(words: seq<string>)
    requires forall i :: 0 <= i < |words| ==> ConfigWord(words[i])
    ensures Readable(ReadWords(words))
  {
    var d := ReadWords(words);
    if d.ExternalAcl? {
      SameWordsRead(words, d);
      var start := 2 + |d.options| + |d.format|;
      assert forall i :: 0 <= i < |d.command| ==> d.command[i] == words[start + i];
    }
  }

  lemma {:induction false} ReadIsReadable(lines: seq<string>)
    ensures forall i :: 0 <= i < |ReadAll(lines)| ==> Readable(ReadAll(lines)[i])
  {
    if lines != [] {
      ReadIsReadable(Front(lines));
      LineWordsAreWords(Last(lines));
      WordsAreReadable(LineWords(Last(lines)));
    }
  }

  lemma {:induction false} PeerIsThere(tunnels: seq<Tunnel>, i: nat) returns (j: nat)
    requires i < |tunnels|
    ensures j < |PeerDirectives(tunnels)|
    ensures PeerDirectives(tunnels)[j] == PeerBlock(tunnels[i])[0]
  {
    var before := PeerDirectives(Front(tunnels));
    if i == |tunnels| - 1 { j := |before|; } else { j := PeerIsThere(Front(tunnels), i); }
  }

  lemma IncludeIsReadable(prose: Prose, helperPath: string, tunnels: seq<Tunnel>)
    requires ReadConfig(RenderInclude(prose, helperPath, tunnels)) == Include(helperPath, tunnels)
    ensures ConfigWord(HelperPath(helperPath)) && forall i :: 0 <= i < |tunnels| ==> ConfigWord(tunnels[i].peerHost)
  {
    var inc := Include(helperPath, tunnels);
    ReadIsReadable(Logical(Split(RenderInclude(prose, helperPath, tunnels), '\n'), ""));
    assert forall i :: 0 <= i < |inc| ==> Readable(inc[i]);
    HelperIsReadable(helperPath, inc[0]);
    forall i | 0 <= i < |tunnels| ensures ConfigWord(tunnels[i].peerHost) {
      HostIsReadable(WiringBlock(helperPath), tunnels, CLOSED_BLOCK, i);
    }
  }

  lemma HostIsReadable(before: seq<Directive>, tunnels: seq<Tunnel>, after: seq<Directive>, i: nat)
    requires i < |tunnels|
    requires var ds := before + PeerDirectives(tunnels) + after; forall j :: 0 <= j < |ds| ==> Readable(ds[j])
    ensures ConfigWord(tunnels[i].peerHost)
  {
    var ds := before + PeerDirectives(tunnels) + after;
    var j := PeerIsThere(tunnels, i);
    assert ds[|before| + j] == PeerDirectives(tunnels)[j];
  }

  lemma HelperIsReadable(helperPath: string, d: Directive)
    requires d == WiringBlock(helperPath)[0] && Readable(d)
    ensures ConfigWord(HelperPath(helperPath))
  {
    assert d.command[0] == HelperPath(helperPath);
  }

  lemma {:induction false} ReadAllFits(lines: seq<string>)
    ensures |ReadAll(lines)| <= |lines|
  {
    if lines != [] { ReadAllFits(Front(lines)); }
  }

  lemma {:induction false} EndingsFit(lines: seq<string>)
    ensures Endings(lines) <= |lines|
  {
    if lines != [] { EndingsFit(lines[1..]); }
  }

  lemma {:induction false} PeerEndingsFit(prose: Prose, tunnels: seq<Tunnel>)
    requires ProseOk(prose) && forall i :: 0 <= i < |tunnels| ==> TunnelOk(tunnels[i])
    ensures Endings(AllTunnelLines(prose, tunnels)) <= 3 * |tunnels| && |PeerDirectives(tunnels)| == 3 * |tunnels|
  {
    if tunnels != [] {
      var t := Last(tunnels);
      PeerEndingsFit(prose, Front(tunnels));
      EndingsConcat(AllTunnelLines(prose, Front(tunnels)), TunnelLines(prose, t));
      PeerCommentIsComment(prose, t);
      HeadingIsSkipped(PeerComment(prose, t));
      SkippedAdd(["", PeerComment(prose, t)], "");
      EndingsConcat(["", PeerComment(prose, t)], LinesOf(PeerWords(t)));
      EndingsFit(LinesOf(PeerWords(t)));
    }
  }

  lemma WiringEndings(helperPath: string)
    requires ConfigWord(HelperPath(helperPath)) && Last(HelperPath(helperPath)) == '\\'
    ensures Endings(LinesOf(WiringWords(helperPath))) <= 1
  {
    var lines := LinesOf(WiringWords(helperPath));
    WiringLineable(helperPath);
    ContentOfWords(WiringWords(helperPath)[0]);
    assert !Ends(lines[0]) && |lines[1..]| == 1;
    EndingsFit(lines[1..]);
  }

  lemma SectionEndings(
    header: seq<string>, wiring: seq<string>, peers: seq<string>, banner: seq<string>, closed: seq<string>)
    requires Skipped(header) && Skipped(banner)
    ensures Endings(header + wiring + peers + [""] + banner + closed + [""])
         == Endings(wiring) + Endings(peers) + Endings(closed)
  {
    BlankIsSkipped();
    SkippedAdd(header, "");
    SkippedAdd(banner, "");
    SkippedAdd([""], "");
    EndingsConcat(header, wiring);
    EndingsConcat(header + wiring, peers);
    EndingsConcat(header + wiring + peers, [""]);
    EndingsConcat(header + wiring + peers + [""], banner);
    EndingsConcat(header + wiring + peers + [""] + banner, closed);
    EndingsConcat(header + wiring + peers + [""] + banner + closed, [""]);
  }

  /** A helper path that ends in a backslash joins two lines, so a directive is missing. */
  lemma BackslashLosesALine(prose: Prose, helperPath: string, tunnels: seq<Tunnel>)
    requires ProseOk(prose) && ConfigWord(HelperPath(helperPath)) && Last(HelperPath(helperPath)) == '\\'
    requires forall i :: 0 <= i < |tunnels| ==> TunnelOk(tunnels[i])
    ensures |ReadConfig(RenderInclude(prose, helperPath, tunnels))| < |Include(helperPath, tunnels)|
  {
    var lines := IncludeLines(prose, helperPath, tunnels);
    RenderedLines(prose, helperPath, tunnels);
    LogicalCounts(lines, "");
    ReadAllFits(Logical(lines, ""));
    CommentsAreSkipped(prose.header);
    CommentsAreSkipped(prose.banner);
    SectionEndings(prose.header, LinesOf(WiringWords(helperPath)), AllTunnelLines(prose, tunnels), prose.banner,
                   LinesOf(FAIL_CLOSED_WORDS));
    WiringEndings(helperPath);
    PeerEndingsFit(prose, tunnels);
    EndingsFit(LinesOf(FAIL_CLOSED_WORDS));
  }

  lemma SameWordsRead(words: seq<string>, d: Directive)
    requires ReadWords(words) == d && d.ExternalAcl?
    ensures words == ["external_acl_type", d.name] + d.options + d.format + d.command
  {
    ExternalWords(words);
  }

  lemma ExternalWords(words: seq<string>)
    requires |words| > 1 && ReadExternal(words).ExternalAcl?
    ensures var d := ReadExternal(words); words == [words[0], d.name] + d.options + d.format + d.command
  {
    assert words == words[..2] + words[2..];
  }

  /** No other words read as the helper's line. */
  lemma OtherWordsDiffer(helperPath: string, words: seq<string>)
    requires words != WiringWords(helperPath)[0]
    ensures ReadWords(words) != WiringBlock(helperPath)[0]
  {
    var d := WiringBlock(helperPath)[0];
    if ReadWords(words) == d {
      SameWordsRead(words, d);
    }
  }

  lemma SpaceLosesAWord(helperPath: string)
    requires ConfigWord(HelperPath(helperPath)) && AsciiSpace(Last(HelperPath(helperPath)))
    ensures Open(LinesOf(WiringWords(helperPath)), "") == ""
    ensures ReadLines(LinesOf(WiringWords(helperPath))) != WiringBlock(helperPath)
  {
    var words, lines := WiringWords(helperPath), LinesOf(WiringWords(helperPath));
    WiringLineable(helperPath);
    ContentOfWords(words[0]);
    WordsRead(words[1]);
    assert AllEnd(lines) && lines == [lines[0]] + [lines[1]];
    AllEndLeavesNothing(lines);
    AllEndLeavesNothing([lines[0]]);
    ReadLinesConcat([lines[0]], [lines[1]]);
    OneRead(lines[0]);
    OneRead(lines[1]);
    LineWordsExactly(words[0]);
    OtherWordsDiffer(helperPath, LineWords(lines[0]));
    assert ReadLine(lines[0]) + ReadLine(lines[1]) != WiringBlock(helperPath) by {
      if LineWords(lines[0]) != [] { assert (ReadLine(lines[0]) + ReadLine(lines[1]))[0] == ReadLine(lines[0])[0]; }
    }
  }

  lemma FormatLosesThePath(helperPath: string)
    requires EndWord(HelperPath(helperPath)) && Percent(HelperPath(helperPath))
    ensures Open(LinesOf(WiringWords(helperPath)), "") == ""
    ensures ReadLines(LinesOf(WiringWords(helperPath))) != WiringBlock(helperPath)
  {
    var words := WiringWords(helperPath);
    WiringLineable(helperPath);
    HelperWordsRead(helperPath);
    ReadWordLines(words, [ReadWords(words[0]), ReadWords(words[1])]);
    OneLinersClose(LinesOf(words));
  }

  /** The rendered text reads back exactly when the helper's path can stand at the end of a line and does not
      start as a format does, and every peer's host is a word. The compiler checks none of this. */
  lemma IncludeReadsBackExactly(prose: Prose, helperPath: string, tunnels: seq<Tunnel>)
    requires ProseOk(prose) && forall i :: 0 <= i < |tunnels| ==> Plain(tunnels[i].name)
    ensures ReadConfig(RenderInclude(prose, helperPath, tunnels)) == Include(helperPath, tunnels)
       <==> HelperOk(helperPath) && forall i :: 0 <= i < |tunnels| ==> ConfigWord(tunnels[i].peerHost)
  {
    if HelperOk(helperPath) && forall i :: 0 <= i < |tunnels| ==> ConfigWord(tunnels[i].peerHost) {
      IncludeReadsBack(prose, helperPath, tunnels);
    }
    if ReadConfig(RenderInclude(prose, helperPath, tunnels)) == Include(helperPath, tunnels) {
      IncludeIsReadable(prose, helperPath, tunnels);
      if Last(HelperPath(helperPath)) == '\\' {
        BackslashLosesALine(prose, helperPath, tunnels);
      } else if !HelperOk(helperPath) {
        if EndWord(HelperPath(helperPath)) { FormatLosesThePath(helperPath); } else { SpaceLosesAWord(helperPath); }
        RenderedReads(prose, helperPath, tunnels);
        SameFront(ReadLines(LinesOf(WiringWords(helperPath))), WiringBlock(helperPath), PeerDirectives(tunnels),
                  CLOSED_BLOCK);
      }
    }
  }

  lemma SameFront<T>(a: seq<T>, b: seq<T>, c: seq<T>, d: seq<T>)
    ensures a + c + d == b + c + d <==> a == b
  {
    if a + c + d == b + c + d {
      assert |a| == |b| && (a + c + d)[..|a|] == a && (b + c + d)[..|b|] == b;
    }
  }
}
