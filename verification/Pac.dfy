/** The proxy auto-config file, rendered twice: by the compiler
    (control-plane/internal/routing/routing.go) and by the control API
    (control-plane/internal/pac/generate.go, control-plane/internal/api/handlers.go). A file is the
    list of its `if (shExpMatch(host, glob)) return proxy` lines, tried in order, with DIRECT last. */
module Pac {
  import opened Text
  import opened Sorting

  datatype Entry = Entry(hostGlob: string, proxy: string)

  const DEFAULT_PROXY := "PROXY proxy-squid:34128"
  const DIRECT := "DIRECT"

  /** Shell-style matching: `*` for any run, `?` for any one character. */
  predicate ShExpMatch(s: string, glob: string)
    decreases |s| + |glob|
  {
    if glob == "" then s == ""
    else if glob[0] == '*' then ShExpMatch(s, glob[1..]) || (s != "" && ShExpMatch(s[1..], glob))
    else s != "" && (glob[0] == '?' || glob[0] == s[0]) && ShExpMatch(s[1..], glob[1..])
  }

  /** What the file answers for a host. */
  function FindProxy(file: seq<Entry>, host: string): string {
    if file == [] then DIRECT
    else if ShExpMatch(host, file[0].hostGlob) then file[0].proxy
    else FindProxy(file[1..], host)
  }

  predicate GlobLe(a: Entry, b: Entry) { StringLe(a.hostGlob, b.hostGlob) }

  function ProxyOr(proxy: string): string { if proxy == "" then DEFAULT_PROXY else proxy }

  function EntriesFor(aliases: seq<string>, proxy: string): (r: seq<Entry>)
    ensures |r| == |aliases| && forall i :: 0 <= i < |r| ==> r[i] == Entry(aliases[i], proxy)
  {
    seq(|aliases|, i requires 0 <= i < |aliases| => Entry(aliases[i], proxy))
  }

  /** `RenderPAC`. */
  function RenderPac(proxy: string, aliases: seq<string>): seq<Entry> {
    EntriesFor(Sort(aliases, StringLe), ProxyOr(proxy))
  }

  /** The entries that `Generate` keeps, with their proxies filled in. */
  function Kept(entries: seq<Entry>): seq<Entry> {
    if entries == [] then []
    else
      var e := Last(entries);
      Kept(Front(entries)) + if e.hostGlob == "" then [] else [e.(proxy := ProxyOr(e.proxy))]
  }

  method Generate(entries: seq<Entry>) returns (file: seq<Entry>)
    ensures file == Sort(Kept(entries), GlobLe)
  {
    var kept: seq<Entry> := [];
    for i := 0 to |entries|
      invariant kept == Kept(entries[..i])
    {
      assert Front(entries[..i + 1]) == entries[..i];
      var e := entries[i];
      if e.hostGlob == "" { continue; }
      if e.proxy == "" { e := e.(proxy := DEFAULT_PROXY); }
      kept := kept + [e];
    }
    assert entries[..|entries|] == entries;
    file := Sort(kept, GlobLe);
  }

  /** `Generate` keeps exactly the entries with a glob, each with its own proxy, or with
      `PROXY proxy-squid:34128` if it has none. */
  lemma {:induction false} KeptExactly(entries: seq<Entry>, e: Entry)
    ensures e in Kept(entries)
       <==> exists x :: && x in entries && x.hostGlob == e.hostGlob != ""
                        && e.proxy == if x.proxy == "" then "PROXY proxy-squid:34128" else x.proxy
  {
    if entries != [] {
      KeptExactly(Front(entries), e);
      assert entries == Front(entries) + [Last(entries)];
      if e in Kept(Front(entries)) {
        var x :| && x in Front(entries) && x.hostGlob == e.hostGlob != ""
                 && e.proxy == if x.proxy == "" then "PROXY proxy-squid:34128" else x.proxy;
        assert x in entries;
      }
    }
  }

  /** The file that `Generate` renders: those entries, by glob. */
  lemma GeneratedExactly(entries: seq<Entry>, e: Entry)
    ensures Sorted(Sort(Kept(entries), GlobLe), GlobLe) && |Sort(Kept(entries), GlobLe)| == |Kept(entries)|
    ensures e in Sort(Kept(entries), GlobLe)
       <==> exists x :: && x in entries && x.hostGlob == e.hostGlob != ""
                        && e.proxy == if x.proxy == "" then "PROXY proxy-squid:34128" else x.proxy
  {
    GlobLeIsTotalOrder();
    SortSorts(Kept(entries), GlobLe);
    KeptExactly(entries, e);
  }

  // ---------------------------------------------------------------- what a file denotes

  ghost predicate AllVia(file: seq<Entry>, proxy: string) { forall i :: 0 <= i < |file| ==> file[i].proxy == proxy }

  predicate Matched(file: seq<Entry>, host: string) {
    exists i :: 0 <= i < |file| && ShExpMatch(host, file[i].hostGlob)
  }

  /** Some alias matches the host. */
  predicate Covered(aliases: seq<string>, host: string) {
    exists i :: 0 <= i < |aliases| && ShExpMatch(host, aliases[i])
  }

  /** When every line names the same proxy, order and repetition do not matter: the file sends a host to
      the proxy exactly when some glob matches it. */
  lemma {:induction false} FileDenotesItsGlobs(file: seq<Entry>, proxy: string, host: string)
    requires AllVia(file, proxy)
    ensures FindProxy(file, host) == if Matched(file, host) then proxy else DIRECT
  {
    if file != [] {
      FileDenotesItsGlobs(file[1..], proxy, host);
      if Matched(file[1..], host) {
        var i :| 0 <= i < |file[1..]| && ShExpMatch(host, file[1..][i].hostGlob);
        assert file[i + 1] == file[1..][i];
      }
      if Matched(file, host) && !ShExpMatch(host, file[0].hostGlob) {
        var i :| 0 <= i < |file| && ShExpMatch(host, file[i].hostGlob);
        assert file[1..][i - 1] == file[i];
      }
    }
  }

  lemma GlobLeIsTotalOrder()
    ensures TotalOrder(GlobLe)
  {
    StringLeIsTotalOrder();
    forall x: Entry, y: Entry ensures GlobLe(x, y) || GlobLe(y, x) { StringLeTotal(x.hostGlob, y.hostGlob); }
    forall x: Entry, y: Entry, z: Entry | GlobLe(x, y) && GlobLe(y, z) ensures GlobLe(x, z) {
      StringLeTransitive(x.hostGlob, y.hostGlob, z.hostGlob);
    }
  }

  lemma CoveredIsMembership(a: seq<string>, b: seq<string>, host: string)
    requires forall x :: x in a <==> x in b
    ensures Covered(a, host) <==> Covered(b, host)
  {
    if Covered(a, host) {
      var i :| 0 <= i < |a| && ShExpMatch(host, a[i]);
      assert a[i] in b;
    }
    if Covered(b, host) {
      var i :| 0 <= i < |b| && ShExpMatch(host, b[i]);
      assert b[i] in a;
    }
  }

  /** The compiler's file sends exactly the hosts that some alias matches to the proxy. */
  lemma RenderedDenotes(proxy: string, aliases: seq<string>, host: string)
    ensures FindProxy(RenderPac(proxy, aliases), host) == if Covered(aliases, host) then ProxyOr(proxy) else DIRECT
  {
    StringLeIsTotalOrder();
    SortSorts(aliases, StringLe);
    var file, sorted := RenderPac(proxy, aliases), Sort(aliases, StringLe);
    FileDenotesItsGlobs(file, ProxyOr(proxy), host);
    CoveredIsMembership(aliases, sorted, host);
    assert Matched(file, host) <==> Covered(sorted, host) by {
      if Covered(sorted, host) {
        var i :| 0 <= i < |sorted| && ShExpMatch(host, sorted[i]);
        assert file[i].hostGlob == sorted[i];
      }
    }
  }

  /** The order of the targets does not matter, nor does repetition. */
  lemma RenderedIgnoresOrder(proxy: string, a: seq<string>, b: seq<string>, host: string)
    requires forall x :: x in a <==> x in b
    ensures FindProxy(RenderPac(proxy, a), host) == FindProxy(RenderPac(proxy, b), host)
  {
    RenderedDenotes(proxy, a, host);
    RenderedDenotes(proxy, b, host);
    CoveredIsMembership(a, b, host);
  }

  function NonEmpty(aliases: seq<string>): (r: seq<string>)
    ensures forall x :: x in r <==> x in aliases && x != ""
  {
    if aliases == [] then []
    else
      assert aliases == Front(aliases) + [Last(aliases)];
      NonEmpty(Front(aliases)) + if Last(aliases) == "" then [] else [Last(aliases)]
  }

  lemma {:induction false} KeptAre(aliases: seq<string>)
    ensures var kept := Kept(EntriesFor(aliases, DEFAULT_PROXY));
            && (forall e :: e in kept ==> e.proxy == DEFAULT_PROXY && e.hostGlob in aliases && e.hostGlob != "")
            && (forall a :: a in aliases && a != "" ==> Entry(a, DEFAULT_PROXY) in kept)
  {
    if aliases != [] {
      KeptAre(Front(aliases));
      assert Front(EntriesFor(aliases, DEFAULT_PROXY)) == EntriesFor(Front(aliases), DEFAULT_PROXY);
    }
  }

  /** The file that the API serves for the aliases of the enabled targets. */
  function ServedPac(aliases: seq<string>): seq<Entry> { Sort(Kept(EntriesFor(aliases, DEFAULT_PROXY)), GlobLe) }

  /** The API's file does the same as the compiler's, on the aliases that are not empty. */
  lemma ServedDenotes(aliases: seq<string>, host: string)
    ensures FindProxy(ServedPac(aliases), host) == if Covered(NonEmpty(aliases), host) then DEFAULT_PROXY else DIRECT
  {
    var file, globs := ServedPac(aliases), NonEmpty(aliases);
    ServedFile(aliases);
    FileDenotesItsGlobs(file, DEFAULT_PROXY, host);
    if Matched(file, host) {
      var i :| 0 <= i < |file| && ShExpMatch(host, file[i].hostGlob);
      assert file[i] in file;
      var j :| 0 <= j < |globs| && globs[j] == file[i].hostGlob;
    }
    if Covered(globs, host) {
      var j :| 0 <= j < |globs| && ShExpMatch(host, globs[j]);
      assert Entry(globs[j], DEFAULT_PROXY) in file;
      var i :| 0 <= i < |file| && file[i] == Entry(globs[j], DEFAULT_PROXY);
    }
  }

  lemma ServedFile(aliases: seq<string>)
    ensures AllVia(ServedPac(aliases), DEFAULT_PROXY)
    ensures forall e :: e in ServedPac(aliases) ==> e.hostGlob in NonEmpty(aliases)
    ensures forall a :: a in NonEmpty(aliases) ==> Entry(a, DEFAULT_PROXY) in ServedPac(aliases)
  {
    GlobLeIsTotalOrder();
    var kept := Kept(EntriesFor(aliases, DEFAULT_PROXY));
    KeptAre(aliases);
    SortSorts(kept, GlobLe);
    forall i | 0 <= i < |ServedPac(aliases)| ensures ServedPac(aliases)[i].proxy == DEFAULT_PROXY {
      assert ServedPac(aliases)[i] in kept;
    }
  }

  predicate AllStars(s: string) { forall i :: 0 <= i < |s| ==> s[i] == '*' }

  lemma {:induction false} OnlyStarsMatchNothing(glob: string)
    ensures ShExpMatch("", glob) <==> AllStars(glob)
  {
    if glob != "" {
      OnlyStarsMatchNothing(glob[1..]);
      if AllStars(glob[1..]) && glob[0] == '*' {
        assert forall i :: 1 <= i < |glob| ==> glob[i] == glob[1..][i - 1];
      }
    }
  }

  lemma CoverWitness(aliases: seq<string>, a: string, host: string)
    requires a in aliases && ShExpMatch(host, a)
    ensures Covered(aliases, host)
  {
    var i :| 0 <= i < |aliases| && aliases[i] == a;
  }

  lemma CoveredByEmptyAlias(aliases: seq<string>, host: string)
    ensures Covered(aliases, host) <==> Covered(NonEmpty(aliases), host) || ("" in aliases && host == "")
  {
    var globs := NonEmpty(aliases);
    if Covered(aliases, host) {
      var i :| 0 <= i < |aliases| && ShExpMatch(host, aliases[i]);
      if aliases[i] != "" { CoverWitness(globs, aliases[i], host); }
    }
    if Covered(globs, host) {
      var i :| 0 <= i < |globs| && ShExpMatch(host, globs[i]);
      CoverWitness(aliases, globs[i], host);
    }
    if "" in aliases && host == "" { CoverWitness(aliases, "", host); }
  }

  lemma EmptyHostIsCoveredByStars(aliases: seq<string>)
    ensures Covered(NonEmpty(aliases), "") <==> exists a :: a in aliases && a != "" && AllStars(a)
  {
    var globs := NonEmpty(aliases);
    if Covered(globs, "") {
      var i :| 0 <= i < |globs| && ShExpMatch("", globs[i]);
      OnlyStarsMatchNothing(globs[i]);
      assert globs[i] in aliases;
    }
    if a :| a in aliases && a != "" && AllStars(a) {
      OnlyStarsMatchNothing(a);
      CoverWitness(globs, a, "");
    }
  }

  /** The compiler's file and the API's send the host the same way. */
  predicate SameProxy(proxy: string, aliases: seq<string>, host: string) {
    FindProxy(RenderPac(proxy, aliases), host) == FindProxy(ServedPac(aliases), host)
  }

  /** The compiler's proxy is a parameter, the API's is fixed, and the API drops empty aliases. So on a
      host that some other alias matches the two files agree exactly when the compiler was given the API's
      proxy. On any other host they agree unless it is the empty one, some alias is empty, and the
      compiler's proxy is not DIRECT. */
  lemma FilesAgreeExactly(proxy: string, aliases: seq<string>, host: string)
    ensures SameProxy(proxy, aliases, host)
       <==> if Covered(NonEmpty(aliases), host) then ProxyOr(proxy) == DEFAULT_PROXY
            else "" in aliases && host == "" ==> proxy == DIRECT
  {
    RenderedDenotes(proxy, aliases, host);
    ServedDenotes(aliases, host);
    CoveredByEmptyAlias(aliases, host);
  }

  /** The condition of `FilesAgreeExactly`. */
  predicate AgreeOn(proxy: string, aliases: seq<string>, host: string) {
    if Covered(NonEmpty(aliases), host) then ProxyOr(proxy) == DEFAULT_PROXY
    else "" in aliases && host == "" ==> proxy == DIRECT
  }

  lemma AgreeOnAllExactly(proxy: string, aliases: seq<string>)
    requires NonEmpty(aliases) != []
    ensures (forall host :: AgreeOn(proxy, aliases, host))
       <==> ProxyOr(proxy) == DEFAULT_PROXY && ("" in aliases ==> Covered(NonEmpty(aliases), ""))
  {
    var glob := NonEmpty(aliases)[0];
    GlobMatchesItself(glob);
    CoverWitness(NonEmpty(aliases), glob, glob);
    assert |DIRECT| != 0 && |DIRECT| != |DEFAULT_PROXY|;
    if forall host :: AgreeOn(proxy, aliases, host) {
      assert AgreeOn(proxy, aliases, glob) && AgreeOn(proxy, aliases, "");
    }
  }

  /** The two files of one set of targets agree on every host exactly when: some alias is not empty, the
      compiler was given the API's proxy, and an empty alias stands only beside one that is all stars; or
      every alias is empty and, if there is one, the compiler's proxy is DIRECT. */
  lemma FilesAlwaysAgreeExactly(proxy: string, aliases: seq<string>)
    ensures (forall host :: SameProxy(proxy, aliases, host))
       <==> if NonEmpty(aliases) != [] then
              && ProxyOr(proxy) == DEFAULT_PROXY
              && ("" in aliases ==> exists a :: a in aliases && a != "" && AllStars(a))
            else "" in aliases ==> proxy == DIRECT
  {
    forall host ensures SameProxy(proxy, aliases, host) == AgreeOn(proxy, aliases, host) {
      FilesAgreeExactly(proxy, aliases, host);
    }
    assert (forall host :: SameProxy(proxy, aliases, host)) <==> (forall host :: AgreeOn(proxy, aliases, host));
    EmptyHostIsCoveredByStars(aliases);
    if NonEmpty(aliases) != [] {
      AgreeOnAllExactly(proxy, aliases);
    } else {
      assert forall host :: !Covered(NonEmpty(aliases), host);
      assert AgreeOn(proxy, aliases, "") <==> ("" in aliases ==> proxy == DIRECT);
    }
  }

  /** A compiler with its own proxy: the files send the host of a target to different proxies. */
  lemma OwnProxyDiffers()
    ensures FindProxy(RenderPac("PROXY p:1", ["a"]), "a") != FindProxy(ServedPac(["a"]), "a")
  {
    GlobMatchesItself("a");
    assert "a" in NonEmpty(["a"]);
    CoverWitness(NonEmpty(["a"]), "a", "a");
    FilesAgreeExactly("PROXY p:1", ["a"], "a");
    assert |"PROXY p:1"| != |DEFAULT_PROXY|;
  }

  lemma ServedIgnoresOrder(a: seq<string>, b: seq<string>, host: string)
    requires forall x :: x in a <==> x in b
    ensures FindProxy(ServedPac(a), host) == FindProxy(ServedPac(b), host)
  {
    ServedDenotes(a, host);
    ServedDenotes(b, host);
    CoveredIsMembership(NonEmpty(a), NonEmpty(b), host);
  }

  /** An alias, read as a glob, matches itself; so every alias goes to the proxy. */
  lemma {:induction false} GlobMatchesItself(s: string)
    ensures ShExpMatch(s, s)
  {
    if s != "" {
      GlobMatchesItself(s[1..]);
      if s[0] == '*' {
        StarEats(s, s[1..]);
      }
    }
  }

  /** A leading star may eat one character. */
  lemma StarEats(s: string, glob: string)
    requires s != "" && ShExpMatch(s[1..], glob)
    ensures ShExpMatch(s, ['*'] + glob)
  {
    assert (['*'] + glob)[1..] == glob;
    assert ShExpMatch(s[1..], ['*'] + glob);
  }
}
