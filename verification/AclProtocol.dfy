/** The Squid external_acl line protocol (control-plane/internal/aclhelper/protocol.go) and the
    helper's read-decide-reply loop (control-plane/cmd/acl-helper/main.go). */
module AclProtocol {
  import opened Text
  import opened Decide
  import opened Replies

  datatype Request = Request(channel: string, host: string)

  predicate IsChannelId(tok: string) { tok != "" && AllDigits(tok) }

  // ---------------------------------------------------------------- percent-decoding

  /** `url.PathUnescape`: a `%` must start two hex digits. */
  function Unescape(s: string): Option<string> {
    if s == "" then Some("")
    else if s[0] == '%' then
      if |s| >= 3 && IsHex(s[1]) && IsHex(s[2]) then
        match Unescape(s[3..]) case None => None case Some(rest) => Some([Octet(s[1], s[2])] + rest)
      else None
    else
      match Unescape(s[1..]) case None => None case Some(rest) => Some([s[0]] + rest)
  }

  /** `raw` spells `host` octet by octet, each as itself or as `%` and two hex digits of either case
      (section 2.1 of RFC 3986); a literal `%` is never itself. */
  ghost predicate Spells(raw: string, host: string)
    decreases host
  {
    if host == "" then raw == ""
    else
      || (raw != "" && raw[0] == host[0] != '%' && Spells(raw[1..], host[1..]))
      || (|raw| >= 3 && raw[0] == '%' && IsHex(raw[1]) && IsHex(raw[2])
          && Octet(raw[1], raw[2]) == host[0] && Spells(raw[3..], host[1..]))
  }

  /** Decoding inverts every way to spell a host, and accepts nothing else. */
  lemma {:induction false} UnescapeInvertsSpelling(raw: string, host: string)
    ensures Unescape(raw) == Some(host) <==> Spells(raw, host)
    decreases |raw|
  {
    if raw == "" {
    } else if host == "" {
      assert Unescape(raw) != Some("");
    } else if raw[0] != '%' {
      UnescapeInvertsSpelling(raw[1..], host[1..]);
      assert host == [host[0]] + host[1..];
    } else if |raw| >= 3 && IsHex(raw[1]) && IsHex(raw[2]) {
      UnescapeInvertsSpelling(raw[3..], host[1..]);
      assert host == [host[0]] + host[1..];
    }
  }

  predicate Unreserved(c: char) {
    'a' <= c <= 'z' || 'A' <= c <= 'Z' || '0' <= c <= '9' || c == '-' || c == '.' || c == '_' || c == '~'
  }

  function HexDigit(v: nat): (c: char)
    requires v < 16
    ensures IsHex(c) && HexValue(c) == v && ' ' < c < '\U{7F}'
  {
    if v < 10 then '0' + v as char else 'A' + (v - 10) as char
  }

  /** The spelling that encodes every octet outside the unreserved set of RFC 3986. */
  function Escape(host: string): (raw: string)
    requires forall i :: 0 <= i < |host| ==> host[i] < '\U{100}'
    ensures Spells(raw, host) && NoSpace(raw)
  {
    if host == "" then ""
    else
      var c := host[0] as nat;
      assert forall i :: 0 <= i < |host| - 1 ==> host[1..][i] == host[i + 1];
      var rest := Escape(host[1..]);
      var first := if Unreserved(host[0]) then [host[0]] else ['%', HexDigit(c / 16), HexDigit(c % 16)];
      AsciiThenNoSpace(first, rest);
      assert (first + rest)[|first|..] == rest;
      first + rest
  }

  lemma AsciiThenNoSpace(a: string, t: string)
    requires NoSpace(t) && forall i :: 0 <= i < |a| ==> ' ' < a[i] < '\U{7F}'
    ensures NoSpace(a + t)
  {
    forall i | 0 <= i < |a + t| ensures SpaceLen((a + t)[i..]) == 0 {
      if i < |a| {
        assert (a + t)[i..][0] == a[i];
      } else {
        assert (a + t)[i..] == t[i - |a|..];
      }
    }
  }

  // ---------------------------------------------------------------- request lines

  predicate LineEnd(c: char) { c == '\r' || c == '\n' }

  function ParseLine(line: string): Request { ParseFields(Fields(TrimRight(line, LineEnd))) }

  predicate Framed(fields: seq<string>) { |fields| >= 2 && IsChannelId(fields[0]) }

  function RawHost(fields: seq<string>): string requires |fields| > 0 {
    if Framed(fields) then fields[1] else fields[0]
  }

  function ParseFields(fields: seq<string>): Request {
    if |fields| == 0 then Request("", "")
    else
      var channel := if Framed(fields) then fields[0] else "";
      match Unescape(RawHost(fields))
      case None => Request(channel, "")
      case Some(host) => Request(channel, TrimSpace(host))
  }

  /** A request line as Squid writes it, in serial or in concurrency framing. */
  function Frame(channel: string, raw: string): string {
    if channel == "" then raw else channel + " " + raw
  }

  lemma {:induction false} TrimRightOfEnding(s: string, ending: string)
    requires s != "" && !LineEnd(Last(s))
    requires forall i :: 0 <= i < |ending| ==> LineEnd(ending[i])
    ensures TrimRight(s + ending, LineEnd) == s
  {
    if ending == "" {
      assert s + ending == s;
    } else {
      assert Front(s + ending) == s + Front(ending) && Last(s + ending) == Last(ending);
      TrimRightOfEnding(s, Front(ending));
    }
  }

  /** Round trip: however a host is spelled without white space, in either framing and with any line
      ending, parsing gives back the channel and the host. */
  lemma ParseOfFramedLine(channel: string, raw: string, host: string, ending: string)
    requires channel == "" || IsChannelId(channel)
    requires host != "" && Trimmed(host)
    requires Spells(raw, host) && NoSpace(raw)
    requires forall i :: 0 <= i < |ending| ==> LineEnd(ending[i])
    ensures ParseLine(Frame(channel, raw) + ending) == Request(channel, host)
  {
    assert raw != "";
    TokenHasNoEnding(raw);
    assert Last(Frame(channel, raw)) == Last(raw);
    TrimRightOfEnding(Frame(channel, raw), ending);
    FramedFields(channel, raw);
    UnescapeInvertsSpelling(raw, host);
    TrimmedIsFixed(host);
  }

  lemma TokenHasNoEnding(t: string)
    requires Token(t)
    ensures !LineEnd(Last(t))
  {
    assert SpaceLen(t[|t| - 1..]) == 0 && t[|t| - 1..][0] == Last(t);
  }

  lemma FramedFields(channel: string, raw: string)
    requires (channel == "" || IsChannelId(channel)) && Token(raw)
    ensures Fields(Frame(channel, raw)) == if channel == "" then [raw] else [channel, raw]
  {
    if channel == "" {
      FieldsOfToken(raw);
    } else {
      DigitsAreToken(channel);
      FieldsOfJoin([channel, raw]);
      JoinTwo(channel, raw, ' ');
    }
  }

  /** The host word of a line and the channel before it, if there is one: a first word of digits is a channel
      exactly when another word follows. */
  predicate HostWordIs(fields: seq<string>, channel: string, raw: string) {
    if |fields| > 1 && fields[0] != "" && forall i :: 0 <= i < |fields[0]| ==> '0' <= fields[0][i] <= '9' then
      channel == fields[0] && raw == fields[1]
    else fields != [] && channel == "" && raw == fields[0]
  }

  /** The parsed host is what the host word spells, without the white space around it, and empty when it
      spells nothing. */
  lemma ParsedHostExactly(fields: seq<string>, channel: string, raw: string, host: string)
    requires HostWordIs(fields, channel, raw)
    ensures ParseFields(fields) == Request(channel, host)
       <==> || (exists h :: Spells(raw, h) && TrimSpace(h) == host)
            || (host == "" && forall h :: !Spells(raw, h))
  {
    assert raw == RawHost(fields);
    forall h | Spells(raw, h) ensures Unescape(raw) == Some(h) { UnescapeInvertsSpelling(raw, h); }
    if Unescape(raw).Some? {
      var h := Unescape(raw).value;
      UnescapeInvertsSpelling(raw, h);
      assert Spells(raw, h) && ParseFields(fields).host == TrimSpace(h);
    }
  }

  /** Words after the host do not matter. */
  lemma ExtraWordsDoNotMatter(fields: seq<string>, extra: seq<string>)
    requires |fields| > 1 || (|fields| == 1 && !IsChannelId(fields[0]))
    ensures ParseFields(fields + extra) == ParseFields(fields)
  {
    assert (fields + extra)[0] == fields[0];
  }

  /** A line whose host word spells nothing keeps its channel, so it can be refused on it. */
  lemma UndecodableKeepsChannel(channel: string, raw: string, ending: string)
    requires IsChannelId(channel) && Token(raw) && forall h :: !Spells(raw, h)
    requires forall i :: 0 <= i < |ending| ==> LineEnd(ending[i])
    ensures ParseLine(Frame(channel, raw) + ending) == Request(channel, "")
  {
    TokenHasNoEnding(raw);
    assert Last(Frame(channel, raw)) == Last(raw);
    TrimRightOfEnding(Frame(channel, raw), ending);
    FramedFields(channel, raw);
    if Unescape(raw).Some? { UnescapeInvertsSpelling(raw, Unescape(raw).value); }
  }

  /** For example `%zz`. */
  lemma SomeWordSpellsNothing() returns (raw: string)
    ensures raw == "%zz" && Token(raw) && forall h :: !Spells(raw, h)
  {
    raw := "%zz";
    AsciiNoSpace(raw);
    assert Unescape(raw).None?;
    forall h ensures !Spells(raw, h) { UnescapeInvertsSpelling(raw, h); }
  }

  /** The request channel is a digit string or empty, whatever the line holds, and a blank line asks for
      nothing. */
  lemma ChannelIsIdOrEmpty(line: string)
    ensures Fields(TrimRight(line, LineEnd)) == [] ==> ParseLine(line) == Request("", "")
    ensures ParseLine(line).channel == "" || IsChannelId(ParseLine(line).channel)
  {
  }

  // ---------------------------------------------------------------- reply lines

  function ReplyBody(channel: string, v: Verdict): string {
    Frame(channel, if v.Refuse? then "ERR" else if v.tag == "" then "OK" else "OK tag=" + v.tag)
  }

  method FormatReply(channel: string, ok: bool, tag: string) returns (b: string)
    ensures b == ReplyBody(channel, if ok then Allow(tag) else Refuse) + "\n"
  {
    b := "";
    if channel != "" {
      b := b + channel;
      b := b + " ";
    }
    if ok && tag != "" {
      b := b + "OK tag=";
      b := b + tag;
    } else if ok {
      b := b + "OK";
    } else {
      b := b + "ERR";
    }
    b := b + "\n";
  }

  /** The tag, if any, stands for itself. */
  predicate PlainVerdict(v: Verdict) { v.Allow? ==> PlainTag(v.tag) }

  /** The tag, if any, stays on one line. */
  predicate LineTag(v: Verdict) { v.Allow? ==> Free(v.tag, '\n') }

  /** What Squid makes of a verdict: its own, but for the tag. */
  function AsRead(v: Verdict): Verdict { if v.Refuse? then Refuse else Allow(ReadTag(v.tag)) }

  /** Whatever the tag, Squid reads the channel and whether the request is allowed. */
  lemma ReplyReads(channel: string, v: Verdict)
    requires channel == "" || IsChannelId(channel)
    ensures ReadReply(ReplyBody(channel, v)) == (channel, AsRead(v))
  {
    var result := ReplyBody("", v);
    PlainResultsRead();
    if v.Allow? && v.tag != "" { OkTagReads(v.tag); }
    assert result[0] == 'O' || result[0] == 'E';
    if channel == "" { SerialReads(result); } else { FramedReads(channel, result); }
  }

  /** A reply reads back exactly when its tag stands for itself; so no two such replies are written
      alike. */
  lemma ReplyReadsBackExactly(channel: string, v: Verdict)
    requires channel == "" || IsChannelId(channel)
    ensures ReadReply(ReplyBody(channel, v)) == (channel, v) <==> PlainVerdict(v)
  {
    ReplyReads(channel, v);
    if v.Allow? { TagReadsBackExactly(v.tag); }
  }

  /** Two tags that do not read back: Squid ends the first at its blank, and decodes the second. */
  lemma SomeTagsAreMisread() returns (spaced: string, escaped: string)
    ensures spaced == "a b" && ReadReply(ReplyBody("", Allow(spaced))) != ("", Allow(spaced))
    ensures escaped == "a%20b" && ReadReply(ReplyBody("", Allow(escaped))) != ("", Allow(escaped))
  {
    spaced, escaped := "a b", "a%20b";
    assert Special(spaced[1]);
    assert EscapeLen(escaped[1..]) == 3;
    ReplyReadsBackExactly("", Allow(spaced));
    ReplyReadsBackExactly("", Allow(escaped));
  }

  // ---------------------------------------------------------------- the stream loop

  /** The lines that successive `ReadString('\n')` calls return: each with its newline, and a last
      fragment without one if the stream does not end in a newline. */
  function Lines(input: string): seq<string> {
    if input == "" then [] else [input[..LineLen(input)]] + Lines(input[LineLen(input)..])
  }

  /** The length of the first line, with its newline if it has one. */
  function LineLen(s: string): (n: nat)
    requires s != ""
    ensures 0 < n <= |s|
  {
    var n := IndexOf(s, '\n');
    if n == |s| then n else n + 1
  }

  /** The bus's answer to the k-th request; it may differ from request to request. */
  type Oracle = (nat, string) -> Verdict

  /** `decideWithTimeout`: an empty host is refused without asking the bus. */
  function Answer(bus: Oracle, k: nat, host: string): Verdict {
    if host == "" then Refuse else bus(k, host)
  }

  /** The verdict for the host of line `k`. */
  function VerdictAt(bus: Oracle, k: nat, line: string): Verdict { Answer(bus, k, ParseLine(line).host) }

  function BodyFor(bus: Oracle, k: nat, line: string): string {
    ReplyBody(ParseLine(line).channel, VerdictAt(bus, k, line))
  }

  function ReplyLine(bus: Oracle, k: nat, line: string): string { BodyFor(bus, k, line) + "\n" }

  /** A line without a usable host is refused on its channel, whatever the bus says. */
  lemma HostlessIsRefused(bus: Oracle, k: nat, line: string)
    requires ParseLine(line).host == ""
    ensures ReadReply(BodyFor(bus, k, line)) == (ParseLine(line).channel, Refuse)
  {
    ChannelIsIdOrEmpty(line);
    ReplyReadsBackExactly(ParseLine(line).channel, Refuse);
  }

  function Bodies(bus: Oracle, lines: seq<string>): (r: seq<string>)
    ensures |r| == |lines| && forall k :: 0 <= k < |r| ==> r[k] == BodyFor(bus, k, lines[k])
  {
    seq(|lines|, k requires 0 <= k < |lines| => BodyFor(bus, k, lines[k]))
  }

  function Transcript(bodies: seq<string>): string {
    if bodies == [] then "" else Transcript(Front(bodies)) + Last(bodies) + "\n"
  }

  function Min(a: nat, b: nat): nat { if a < b then a else b }

  method AnswerLine(bus: Oracle, k: nat, line: string) returns (reply: string)
    ensures reply == ReplyLine(bus, k, line)
  {
    var req := ParseLine(line);
    var v := Answer(bus, k, req.host);
    reply := FormatReply(req.channel, v.Allow?, if v.Allow? then v.tag else "");
  }

  /** `ReadString('\n')`: the next line, or what is left before the end of the stream. */
  method ReadString(rest: string) returns (line: string, eof: bool, next: string)
    ensures rest == "" ==> line == "" && eof
    ensures rest != "" ==> line == rest[..LineLen(rest)] && next == rest[LineLen(rest)..]
    ensures eof ==> next == ""
    ensures !eof ==> rest != "" && Last(line) == '\n'
  {
    var n := IndexOf(rest, '\n');
    eof := n == |rest|;
    line, next := if eof then rest else rest[..n + 1], if eof then "" else rest[n + 1..];
  }

  lemma NextLine(lines: seq<string>, k: nat, rest: string)
    requires k <= |lines| && lines[k..] == Lines(rest) && rest != ""
    ensures k < |lines| && lines[k] == rest[..LineLen(rest)] && lines[k + 1..] == Lines(rest[LineLen(rest)..])
  {
    assert lines[k] == lines[k..][0] && lines[k + 1..] == lines[k..][1..];
  }

  /** What has been written after `k` lines. */
  function Written(bus: Oracle, lines: seq<string>, k: nat): string
    requires k <= |lines|
  {
    Transcript(Bodies(bus, lines[..k]))
  }

  lemma WrittenGrows(bus: Oracle, lines: seq<string>, k: nat)
    requires k < |lines|
    ensures Written(bus, lines, k + 1) == Written(bus, lines, k) + ReplyLine(bus, k, lines[k])
  {
    var more, body := Bodies(bus, lines[..k + 1]), BodyFor(bus, k, lines[k]);
    assert Front(more) == Bodies(bus, lines[..k]) && Last(more) == body;
    assert Transcript(more) == Transcript(Front(more)) + (body + "\n");
  }

  /** What gets out of a reply whose write fails. */
  function Torn(reply: string, n: nat): string { reply[..Min(n, |reply|)] }

  /** One turn: read the next line and, if there is one, answer it. */
  method Turn(bus: Oracle, k: nat, rest: string, ghost lines: seq<string>)
    returns (reply: string, eof: bool, next: string)
    requires k <= |lines| && lines[k..] == Lines(rest)
    ensures k == |lines| ==> reply == "" && eof
    ensures k < |lines| ==> reply == ReplyLine(bus, k, lines[k]) != ""
    ensures k < |lines| ==> lines[k + 1..] == Lines(next) && |next| < |rest| && (eof ==> next == "")
  {
    if rest != "" { NextLine(lines, k, rest); }
    var line;
    line, eof, next := ReadString(rest);
    reply := "";
    if line != "" { reply := AnswerLine(bus, k, line); }
  }

  /** The loop on a whole input. Cancellation is seen from iteration `cancelAt` on; writing the reply
      number `failAt` fails after `torn` bytes. Without either, every line is answered. */
  method Loop(input: string, bus: Oracle, cancelAt: nat, failAt: nat, torn: nat) returns (output: string, failed: bool)
    ensures failed == (failAt < |Lines(input)| && failAt < cancelAt)
    ensures output == Written(bus, Lines(input), Min(|Lines(input)|, Min(cancelAt, failAt)))
                      + if failed then Torn(ReplyLine(bus, failAt, Lines(input)[failAt]), torn) else ""
  {
    var rest := input;
    ghost var lines := Lines(input);
    ghost var stop := Min(|lines|, Min(cancelAt, failAt));
    var k := 0;
    var last := "";
    output, failed := "", false;
    while true
      invariant !failed && last == "" && k <= stop && lines[k..] == Lines(rest)
      invariant output == Written(bus, lines, k)
      decreases |rest|
    {
      if k >= cancelAt { break; }
      var reply, eof, next := Turn(bus, k, rest, lines);
      if reply != "" {
        if k == failAt {
          last, failed := Torn(reply, torn), true;
          break;
        }
        WrittenGrows(bus, lines, k);
        output := output + reply;
        k := k + 1;
      }
      if eof { break; }
      rest := next;
    }
    assert k == stop;
    output := output + last;
  }

  lemma JoinAppend(parts: seq<string>, p: string, sep: char)
    ensures Join(parts + [""], sep) + p == Join(parts + [p], sep)
  {
    if parts == [] {
      assert parts + [""] == [""] && parts + [p] == [p];
    } else {
      JoinSnoc(parts, "", sep);
      JoinSnoc(parts, p, sep);
    }
  }

  lemma {:induction false} TranscriptIsJoin(bodies: seq<string>)
    ensures Transcript(bodies) == Join(bodies + [""], '\n')
  {
    if bodies == [] {
      assert bodies + [""] == [""];
    } else {
      TranscriptIsJoin(Front(bodies));
      JoinAppend(Front(bodies), Last(bodies), '\n');
      assert Front(bodies) + [Last(bodies)] == bodies;
      JoinSnoc(bodies, "", '\n');
    }
  }

  lemma ReplyIsOneLineExactly(channel: string, v: Verdict)
    requires channel == "" || IsChannelId(channel)
    ensures Free(ReplyBody(channel, v), '\n') <==> LineTag(v)
  {
    if channel != "" { DigitsAreToken(channel); }
    FreeFrame(channel, "OK");
    FreeFrame(channel, "ERR");
    FreeFrame(channel, "OK tag=");
    if v.Allow? && v.tag != "" {
      assert ReplyBody(channel, v) == Frame(channel, "OK tag=") + v.tag;
      FreePrefixed(Frame(channel, "OK tag="), v.tag);
    }
  }

  lemma FreeFrame(channel: string, word: string)
    requires Free(channel, '\n') && Free(word, '\n')
    ensures Free(Frame(channel, word), '\n')
  {
    FreeConcat(channel, " ", '\n');
    FreeConcat(channel + " ", word, '\n');
  }

  lemma FreePrefixed(prefix: string, tag: string)
    requires Free(prefix, '\n')
    ensures Free(prefix + tag, '\n') <==> Free(tag, '\n')
  {
    assert forall i :: 0 <= i < |tag| ==> (prefix + tag)[|prefix| + i] == tag[i];
    if Free(tag, '\n') { FreeConcat(prefix, tag, '\n'); }
  }

  lemma BodyIsOneLineExactly(bus: Oracle, k: nat, line: string)
    ensures Free(BodyFor(bus, k, line), '\n') <==> LineTag(VerdictAt(bus, k, line))
  {
    ChannelIsIdOrEmpty(line);
    ReplyIsOneLineExactly(ParseLine(line).channel, VerdictAt(bus, k, line));
  }

  lemma TranscriptSplitsExactly(bodies: seq<string>)
    ensures Split(Transcript(bodies), '\n') == bodies + [""]
       <==> forall k :: 0 <= k < |bodies| ==> Free(bodies[k], '\n')
  {
    var parts := Split(Transcript(bodies), '\n');
    if forall k :: 0 <= k < |bodies| ==> Free(bodies[k], '\n') {
      TranscriptIsJoin(bodies);
      SplitOfJoin(bodies + [""], '\n');
    }
    SplitPartsAreFree(Transcript(bodies), '\n');
    if parts == bodies + [""] {
      forall k | 0 <= k < |bodies| ensures Free(bodies[k], '\n') { assert bodies[k] == parts[k]; }
    }
  }

  /** Every verdict on these lines has the property. */
  ghost predicate OnAll(bus: Oracle, lines: seq<string>, p: Verdict -> bool) {
    forall k :: 0 <= k < |lines| ==> p(VerdictAt(bus, k, lines[k]))
  }

  /** For every input and every bus the output is one reply line per input line, in order, exactly when no
      tag among the answers holds a newline. */
  lemma OneReplyPerLineExactly(input: string, bus: Oracle)
    ensures Split(Transcript(Bodies(bus, Lines(input))), '\n') == Bodies(bus, Lines(input)) + [""]
       <==> OnAll(bus, Lines(input), LineTag)
  {
    var lines := Lines(input);
    var bodies := Bodies(bus, lines);
    forall k | 0 <= k < |lines| ensures Free(bodies[k], '\n') <==> LineTag(VerdictAt(bus, k, lines[k])) {
      BodyIsOneLineExactly(bus, k, lines[k]);
    }
    TranscriptSplitsExactly(bodies);
  }

  /** Squid reads the verdict for the k-th host on the k-th channel from the k-th reply. */
  ghost predicate ReadsBack(bus: Oracle, lines: seq<string>, k: nat, reply: string)
    requires k < |lines|
  {
    ReadReply(reply) == (ParseLine(lines[k]).channel, VerdictAt(bus, k, lines[k]))
  }

  lemma BodyReadsBackExactly(bus: Oracle, lines: seq<string>, k: nat)
    requires k < |lines|
    ensures ReadsBack(bus, lines, k, BodyFor(bus, k, lines[k])) <==> PlainVerdict(VerdictAt(bus, k, lines[k]))
  {
    ChannelIsIdOrEmpty(lines[k]);
    ReplyReadsBackExactly(ParseLine(lines[k]).channel, VerdictAt(bus, k, lines[k]));
  }

  /** For every input and every bus, Squid reads exactly the verdicts back from the stream, one per input
      line and in order, exactly when every tag among the answers stands for itself. */
  lemma StreamReadsBackExactly(input: string, bus: Oracle)
    ensures var lines := Lines(input);
            var bodies := Bodies(bus, lines);
            && Split(Transcript(bodies), '\n') == bodies + [""]
            && (forall k :: 0 <= k < |lines| ==> ReadsBack(bus, lines, k, bodies[k]))
            <==> OnAll(bus, lines, PlainVerdict)
  {
    var lines := Lines(input);
    var bodies := Bodies(bus, lines);
    OneReplyPerLineExactly(input, bus);
    forall k | 0 <= k < |lines|
      ensures ReadsBack(bus, lines, k, bodies[k]) <==> PlainVerdict(VerdictAt(bus, k, lines[k]))
      ensures PlainVerdict(VerdictAt(bus, k, lines[k])) ==> LineTag(VerdictAt(bus, k, lines[k]))
    {
      BodyReadsBackExactly(bus, lines, k);
      PlainStaysOnLine(VerdictAt(bus, k, lines[k]));
    }
  }

  lemma PlainStaysOnLine(v: Verdict)
    ensures PlainVerdict(v) ==> LineTag(v)
  {
    assert Special('\n');
  }

  /** As long as no tag holds a newline, Squid reads from the k-th reply the channel of the k-th line and
      whether its request is allowed, even where it misreads the tag. */
  lemma EveryLineReads(input: string, bus: Oracle, k: nat)
    requires OnAll(bus, Lines(input), LineTag) && k < |Lines(input)|
    ensures var replies := Split(Transcript(Bodies(bus, Lines(input))), '\n');
            && |replies| == |Lines(input)| + 1
            && ReadReply(replies[k])
               == (ParseLine(Lines(input)[k]).channel, AsRead(VerdictAt(bus, k, Lines(input)[k])))
  {
    OneReplyPerLineExactly(input, bus);
    ChannelIsIdOrEmpty(Lines(input)[k]);
    ReplyReads(ParseLine(Lines(input)[k]).channel, VerdictAt(bus, k, Lines(input)[k]));
  }

  lemma JoinFirst(parts: seq<string>, sep: char)
    requires |parts| > 1
    ensures Join(parts, sep) == parts[0] + [sep] + Join(parts[1..], sep)
  {
  }

  /** A newline in a tag puts the replies out of step: if the first request is allowed with a tag that
      continues in `OK` on a new line, then the second reply is `OK`, whatever the second request was. */
  lemma NewlineTagShiftsReplies(input: string, bus: Oracle, tag: string)
    requires Lines(input) != [] && tag != "" && Free(tag, '\n')
    requires VerdictAt(bus, 0, Lines(input)[0]) == Allow(tag + "\n" + "OK")
    ensures var replies := Split(Transcript(Bodies(bus, Lines(input))), '\n');
            |replies| > 1 && ReadReply(replies[1]) == ("", Allow(""))
  {
    var line := Lines(input)[0];
    var bodies := Bodies(bus, Lines(input));
    var first := ReplyBody(ParseLine(line).channel, Allow(tag));
    ChannelIsIdOrEmpty(line);
    ReplyIsOneLineExactly(ParseLine(line).channel, Allow(tag));
    assert bodies[0] == BodyFor(bus, 0, line) == first + ['\n'] + "OK";
    SecondLineIs(bodies, first, "OK");
    PlainResultsRead();
    SerialReads("OK");
  }

  lemma SecondLineIs(bodies: seq<string>, first: string, second: string)
    requires bodies != [] && bodies[0] == first + ['\n'] + second && Free(first, '\n') && Free(second, '\n')
    ensures var replies := Split(Transcript(bodies), '\n'); |replies| > 1 && replies[1] == second
  {
    TranscriptIsJoin(bodies);
    var all := bodies + [""];
    JoinFirst(all, '\n');
    var rest := Join(all[1..], '\n');
    calc {
      Split(Transcript(bodies), '\n');
      Split(bodies[0] + ['\n'] + rest, '\n');
      { Regroup(first, ['\n'], second, ['\n'], rest); }
      Split(first + ['\n'] + (second + ['\n'] + rest), '\n');
      { SplitFirst(first, '\n', second + ['\n'] + rest); }
      [first] + Split(second + ['\n'] + rest, '\n');
      { SplitFirst(second, '\n', rest); }
      [first] + ([second] + Split(rest, '\n'));
    }
  }

  /** The lines are a cut of the input: nothing is lost, and newlines stand only at line ends. */
  lemma {:induction false} LinesPartition(input: string)
    ensures Concat(Lines(input)) == input
    ensures forall k :: 0 <= k < |Lines(input)| ==> OneLine(Lines(input)[k], k == |Lines(input)| - 1)
  {
    LinesRejoin(input);
    forall k | 0 <= k < |Lines(input)| ensures OneLine(Lines(input)[k], k == |Lines(input)| - 1) {
      LineIsOne(input, k);
    }
  }

  predicate OneLine(line: string, last: bool) {
    line != "" && Free(Front(line), '\n') && (!last ==> Last(line) == '\n')
  }

  lemma {:induction false} LinesRejoin(input: string)
    ensures Concat(Lines(input)) == input
    decreases |input|
  {
    if input != "" {
      var n := LineLen(input);
      LinesRejoin(input[n..]);
      assert input == input[..n] + input[n..];
      assert Lines(input)[1..] == Lines(input[n..]);
    }
  }

  lemma {:induction false} LineIsOne(input: string, k: nat)
    requires k < |Lines(input)|
    ensures OneLine(Lines(input)[k], k == |Lines(input)| - 1)
    decreases |input|
  {
    if k > 0 {
      LineIsOne(input[LineLen(input)..], k - 1);
    } else {
      var i, n := IndexOf(input, '\n'), LineLen(input);
      assert forall j :: 0 <= j < n - 1 ==> input[j] == input[..i][j];
    }
  }

  function Concat(parts: seq<string>): string {
    if parts == [] then "" else parts[0] + Concat(parts[1..])
  }
}
