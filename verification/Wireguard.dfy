/** Parsers for `wg show <if> transfer` and `wg show <if> latest-handshakes`, and the totals that feed
    the byte-delta rule (control-plane/internal/vpn/wg.go). */
module Wireguard {
  import opened Text
  import opened Vpn
  import opened Healthd
  import opened Sorting

  datatype PeerTransfer = PeerTransfer(publicKey: string, rx: Counter, tx: Counter)

  datatype PeerHandshake = PeerHandshake(publicKey: string, at: Instant)

  /** What one line of output says. */
  datatype Item<+T> = Blank | Peer(peer: T) | Bad

  predicate CarriageReturn(c: char) { c == '\r' }

  function TransferPeer(fields: seq<string>): Item<PeerTransfer> {
    if |fields| != 3 then Bad
    else
      var rx, tx := ParseNat(TrimSpace(fields[1]), WORD), ParseNat(TrimSpace(fields[2]), WORD);
      if rx.None? || tx.None? then Bad
      else Peer(PeerTransfer(TrimSpace(fields[0]), rx.value, tx.value))
  }

  function TransferItem(line: string): Item<PeerTransfer> {
    var line := TrimRight(line, CarriageReturn);
    if TrimSpace(line) == "" then Blank else TransferPeer(Split(line, '\t'))
  }

  const UNIX_TO_INTERNAL := 62_135_596_800

  /** `time.Unix(epoch, 0)`: the offset to Go's year-1 origin is added in 64-bit arithmetic. */
  function UnixTime(epoch: int): Instant { Wrap64(epoch + UNIX_TO_INTERNAL) * SECOND }

  /** Only a positive epoch is a handshake. */
  function HandshakeTime(epoch: int): Instant { if epoch > 0 then UnixTime(epoch) else ZERO_TIME }

  function HandshakePeer(fields: seq<string>): Item<PeerHandshake> {
    if |fields| != 2 then Bad
    else
      var epoch := ParseInt64(TrimSpace(fields[1]));
      if epoch.None? then Bad
      else Peer(PeerHandshake(TrimSpace(fields[0]), HandshakeTime(epoch.value)))
  }

  function HandshakeItem(line: string): Item<PeerHandshake> {
    var line := TrimRight(line, CarriageReturn);
    if TrimSpace(line) == "" then Blank else HandshakePeer(Split(line, '\t'))
  }

  /** The peers of a whole output: all or nothing. */
  function Collect<T>(lines: seq<string>, read: string -> Item<T>): Option<seq<T>> {
    if lines == [] then Some([])
    else
      var before := Collect(Front(lines), read);
      match read(Last(lines))
      case Blank => before
      case Bad => None
      case Peer(p) => if before.None? then None else Some(before.value + [p])
  }

  method ParseTransfer(out: string) returns (r: Option<seq<PeerTransfer>>)
    ensures r == Collect(Split(out, '\n'), TransferItem)
  {
    var peers: seq<PeerTransfer> := [];
    var lines := Split(out, '\n');
    for i := 0 to |lines|
      invariant Some(peers) == Collect(lines[..i], TransferItem)
    {
      assert Front(lines[..i + 1]) == lines[..i];
      var line := TrimRight(lines[i], CarriageReturn);
      if TrimSpace(line) == "" { continue; }
      var fields := Split(line, '\t');
      BadLineFails(lines, TransferItem, i);
      if |fields| != 3 { return None; }
      var rx := ParseNat(TrimSpace(fields[1]), WORD);
      if rx.None? { return None; }
      var tx := ParseNat(TrimSpace(fields[2]), WORD);
      if tx.None? { return None; }
      peers := peers + [PeerTransfer(TrimSpace(fields[0]), rx.value, tx.value)];
    }
    assert lines[..|lines|] == lines;
    r := Some(peers);
  }

  method ParseLatestHandshakes(out: string) returns (r: Option<seq<PeerHandshake>>)
    ensures r == Collect(Split(out, '\n'), HandshakeItem)
  {
    var peers: seq<PeerHandshake> := [];
    var lines := Split(out, '\n');
    for i := 0 to |lines|
      invariant Some(peers) == Collect(lines[..i], HandshakeItem)
    {
      assert Front(lines[..i + 1]) == lines[..i];
      var line := TrimRight(lines[i], CarriageReturn);
      if TrimSpace(line) == "" { continue; }
      var fields := Split(line, '\t');
      BadLineFails(lines, HandshakeItem, i);
      if |fields| != 2 { return None; }
      var epoch := ParseInt64(TrimSpace(fields[1]));
      if epoch.None? { return None; }
      var at := ZERO_TIME;
      if epoch.value > 0 { at := UnixTime(epoch.value); }
      peers := peers + [PeerHandshake(TrimSpace(fields[0]), at)];
    }
    assert lines[..|lines|] == lines;
    r := Some(peers);
  }

  // ---------------------------------------------------------------- which outputs parse

  lemma {:induction false} BadLineFails<T>(lines: seq<string>, read: string -> Item<T>, i: nat)
    requires i < |lines|
    ensures read(lines[i]).Bad? ==> Collect(lines, read).None?
  {
    if i < |lines| - 1 { BadLineFails(Front(lines), read, i); }
  }

  /** The parse fails exactly when some line is malformed. */
  lemma {:induction false} FailsExactlyOnBadLine<T>(lines: seq<string>, read: string -> Item<T>)
    ensures Collect(lines, read).None? <==> exists i :: 0 <= i < |lines| && read(lines[i]).Bad?
  {
    if lines != [] {
      FailsExactlyOnBadLine(Front(lines), read);
      if exists i :: 0 <= i < |Front(lines)| && read(Front(lines)[i]).Bad? {
        var i :| 0 <= i < |Front(lines)| && read(Front(lines)[i]).Bad?;
        assert read(lines[i]).Bad?;
      }
      assert forall i :: 0 <= i < |lines| - 1 ==> lines[i] == Front(lines)[i];
    }
  }

  lemma {:induction false} CollectConcat<T>(a: seq<string>, b: seq<string>, read: string -> Item<T>)
    ensures var x, y := Collect(a, read), Collect(b, read);
            Collect(a + b, read) == if x.None? || y.None? then None else Some(x.value + y.value)
  {
    if b == [] {
      assert a + b == a;
      var x := Collect(a, read);
      assert x.Some? ==> x.value + [] == x.value;
    } else {
      assert Front(a + b) == a + Front(b) && Last(a + b) == Last(b);
      CollectConcat(a, Front(b), read);
      var x, y, item := Collect(a, read), Collect(Front(b), read), read(Last(b));
      if x.Some? && y.Some? && item.Peer? {
        assert x.value + y.value + [item.peer] == x.value + (y.value + [item.peer]);
      }
    }
  }

  /** Blank lines anywhere change nothing. */
  lemma BlankLinesDoNotMatter<T>(a: seq<string>, blank: string, b: seq<string>, read: string -> Item<T>)
    requires read(blank).Blank?
    ensures Collect(a + [blank] + b, read) == Collect(a + b, read)
  {
    assert Front([blank]) == [];
    CollectConcat(a, [blank], read);
    CollectConcat(a + [blank], b, read);
    CollectConcat(a, b, read);
  }

  lemma {:induction false} TrimRightIgnores(s: string, ending: string, cut: char -> bool)
    requires forall i :: 0 <= i < |ending| ==> cut(ending[i])
    ensures TrimRight(s + ending, cut) == TrimRight(s, cut)
  {
    if ending == "" {
      assert s + ending == s;
    } else {
      assert Front(s + ending) == s + Front(ending) && Last(s + ending) == Last(ending);
      TrimRightIgnores(s, Front(ending), cut);
    }
  }

  /** Carriage returns at line ends change nothing. */
  lemma CarriageReturnsDoNotMatter(line: string, crs: string)
    requires forall i :: 0 <= i < |crs| ==> crs[i] == '\r'
    ensures TransferItem(line + crs) == TransferItem(line)
    ensures HandshakeItem(line + crs) == HandshakeItem(line)
  {
    TrimRightIgnores(line, crs, CarriageReturn);
  }

  /** Lines with carriage returns added at their ends. */
  function WithReturns(lines: seq<string>, crs: seq<string>): (r: seq<string>)
    requires |lines| == |crs|
    ensures |r| == |lines| && forall i :: 0 <= i < |r| ==> r[i] == lines[i] + crs[i]
  {
    seq(|lines|, i requires 0 <= i < |lines| => lines[i] + crs[i])
  }

  lemma {:induction false} CollectSame<T>(a: seq<string>, b: seq<string>, read: string -> Item<T>)
    requires |a| == |b| && forall i :: 0 <= i < |a| ==> read(a[i]) == read(b[i])
    ensures Collect(a, read) == Collect(b, read)
  {
    if a != [] { CollectSame(Front(a), Front(b), read); }
  }

  /** Carriage returns before any of the newlines of an output change nothing. */
  lemma ReturnsInOutputDoNotMatter(out: string, crs: seq<string>)
    requires |crs| == |Split(out, '\n')|
    requires forall i :: 0 <= i < |crs| ==> forall j :: 0 <= j < |crs[i]| ==> crs[i][j] == '\r'
    ensures var lines := Split(Join(WithReturns(Split(out, '\n'), crs), '\n'), '\n');
            && Collect(lines, TransferItem) == Collect(Split(out, '\n'), TransferItem)
            && Collect(lines, HandshakeItem) == Collect(Split(out, '\n'), HandshakeItem)
  {
    var plain := Split(out, '\n');
    var lines := WithReturns(plain, crs);
    SplitPartsAreFree(out, '\n');
    forall i | 0 <= i < |lines|
      ensures Free(lines[i], '\n')
      ensures TransferItem(lines[i]) == TransferItem(plain[i]) && HandshakeItem(lines[i]) == HandshakeItem(plain[i])
    {
      CarriageReturnsDoNotMatter(plain[i], crs[i]);
      FreeConcat(plain[i], crs[i], '\n');
    }
    SplitOfJoin(lines, '\n');
    CollectSame(lines, plain, TransferItem);
    CollectSame(lines, plain, HandshakeItem);
  }

  function TrimEach(fields: seq<string>): (r: seq<string>)
    ensures |r| == |fields| && forall i :: 0 <= i < |r| ==> r[i] == TrimSpace(fields[i])
  {
    seq(|fields|, i requires 0 <= i < |fields| => TrimSpace(fields[i]))
  }

  /** White space around the fields of a line changes nothing. */
  lemma PaddingDoesNotMatter(fields: seq<string>)
    ensures TransferPeer(fields) == TransferPeer(TrimEach(fields))
    ensures HandshakePeer(fields) == HandshakePeer(TrimEach(fields))
  {
    forall i | 0 <= i < |fields| ensures TrimSpace(TrimEach(fields)[i]) == TrimSpace(fields[i]) {
      TrimTwice(fields[i]);
    }
  }

  // ---------------------------------------------------------------- round trips

  /** A key as `wg` prints it. */
  predicate Key(s: string) { Trimmed(s) && Free(s, '\t') && Free(s, '\n') }

  function PrintEpoch(n: int): string { if n < 0 then "-" + Decimal(-n) else Decimal(n) }

  lemma PrintedEpochReads(n: int)
    requires MIN_DURATION <= n <= MAX_DURATION
    ensures ParseInt64(PrintEpoch(n)) == Some(n)
  {
    if n < 0 {
      ParseOfDecimal(-n, MAX_DURATION + 2);
      assert PrintEpoch(n)[1..] == Decimal(-n);
    } else {
      ParseOfDecimal(n, MAX_DURATION + 1);
    }
  }

  /** A printed number is one word that ends in a digit. */
  predicate NumberText(s: string) {
    s != "" && IsDigit(Last(s)) && forall i :: 0 <= i < |s| ==> IsDigit(s[i]) || s[i] == '-'
  }

  lemma PrintedEpochIsNumber(n: int)
    ensures NumberText(PrintEpoch(n))
  {
    var digits := Decimal(if n < 0 then -n else n);
    assert Last(PrintEpoch(n)) == Last(digits);
  }

  lemma NumberTextIsFixed(s: string)
    requires NumberText(s)
    ensures TrimSpace(s) == s && Free(s, '\t') && Free(s, '\n')
  {
    AsciiNoSpace(s);
    NoSpaceIsTrimmed(s);
  }

  lemma {:induction false} DigitSurvivesTrim(s: string)
    requires s != "" && IsDigit(Last(s))
    ensures TrimSpace(s) != "" && TrimRight(s, CarriageReturn) == s
    decreases |s|
  {
    DigitIsNotSpace(s);
    if SpaceLen(s) > 0 {
      DigitSurvivesTrim(s[SpaceLen(s)..]);
    }
  }

  lemma DigitIsNotSpace(s: string)
    requires s != "" && IsDigit(Last(s))
    ensures SpaceEnd(s) == 0 && SpaceLen(s) < |s|
  {
  }

  /** A line that ends in a digit is not blank and has no carriage return to cut. */
  lemma DigitLineItem(line: string)
    requires line != "" && IsDigit(Last(line))
    ensures TransferItem(line) == TransferPeer(Split(line, '\t'))
    ensures HandshakeItem(line) == HandshakePeer(Split(line, '\t'))
  {
    DigitSurvivesTrim(line);
  }

  function TransferText(p: PeerTransfer): string { Join([p.publicKey, Decimal(p.rx), Decimal(p.tx)], '\t') }

  lemma TransferFieldsRead(p: PeerTransfer)
    requires Key(p.publicKey)
    ensures TransferPeer([p.publicKey, Decimal(p.rx), Decimal(p.tx)]) == Peer(p)
  {
    NumberTextIsFixed(Decimal(p.rx));
    NumberTextIsFixed(Decimal(p.tx));
    TrimmedIsFixed(p.publicKey);
    ParseOfDecimal(p.rx, WORD);
    ParseOfDecimal(p.tx, WORD);
  }

  lemma TransferLineReads(p: PeerTransfer)
    requires Key(p.publicKey)
    ensures Free(TransferText(p), '\n') && TransferItem(TransferText(p)) == Peer(p)
  {
    TransferTextSplits(p);
    TransferFieldsRead(p);
    DigitLineItem(TransferText(p));
  }

  lemma TransferTextSplits(p: PeerTransfer)
    requires Key(p.publicKey)
    ensures Split(TransferText(p), '\t') == [p.publicKey, Decimal(p.rx), Decimal(p.tx)]
    ensures TransferText(p) != "" && IsDigit(Last(TransferText(p))) && Free(TransferText(p), '\n')
  {
    var rx, tx := Decimal(p.rx), Decimal(p.tx);
    DigitsAreToken(rx);
    DigitsAreToken(tx);
    SplitOfJoin([p.publicKey, rx, tx], '\t');
    JoinThree(p.publicKey, rx, tx, '\t');
    FreeConcat(p.publicKey, ['\t'], '\n');
    FreeConcat(p.publicKey + ['\t'], rx, '\n');
    FreeConcat(p.publicKey + ['\t'] + rx, ['\t'], '\n');
    FreeConcat(p.publicKey + ['\t'] + rx + ['\t'], tx, '\n');
    assert Last(TransferText(p)) == Last(tx);
  }

  function HandshakeText(key: string, epoch: int): string { Join([key, PrintEpoch(epoch)], '\t') }

  lemma HandshakeFieldsRead(key: string, epoch: int)
    requires Key(key) && MIN_DURATION <= epoch <= MAX_DURATION
    ensures HandshakePeer([key, PrintEpoch(epoch)]) == Peer(PeerHandshake(key, HandshakeTime(epoch)))
  {
    PrintedEpochIsNumber(epoch);
    NumberTextIsFixed(PrintEpoch(epoch));
    PrintedEpochReads(epoch);
    TrimmedIsFixed(key);
  }

  lemma HandshakeLineReads(key: string, epoch: int)
    requires Key(key) && MIN_DURATION <= epoch <= MAX_DURATION
    ensures Free(HandshakeText(key, epoch), '\n')
    ensures HandshakeItem(HandshakeText(key, epoch)) == Peer(PeerHandshake(key, HandshakeTime(epoch)))
  {
    HandshakeTextSplits(key, epoch);
    HandshakeFieldsRead(key, epoch);
    DigitLineItem(HandshakeText(key, epoch));
  }

  lemma HandshakeTextSplits(key: string, epoch: int)
    requires Key(key)
    ensures var line := HandshakeText(key, epoch);
            && Split(line, '\t') == [key, PrintEpoch(epoch)]
            && line != "" && IsDigit(Last(line)) && Free(line, '\n')
  {
    var text := PrintEpoch(epoch);
    PrintedEpochIsNumber(epoch);
    NumberTextIsFixed(text);
    SplitOfJoin([key, text], '\t');
    JoinTwo(key, text, '\t');
    FreeConcat(key, ['\t'], '\n');
    FreeConcat(key + ['\t'], text, '\n');
    assert Last(HandshakeText(key, epoch)) == Last(text);
  }

  /** The printed form of a list: one line each, every line ended by a newline. */
  function Printed(lines: seq<string>): string { Join(lines + [""], '\n') }

  lemma {:induction false} CollectReads<T>(lines: seq<string>, peers: seq<T>, read: string -> Item<T>)
    requires |lines| == |peers|
    requires forall i :: 0 <= i < |lines| ==> read(lines[i]) == Item<T>.Peer(peers[i])
    ensures Collect(lines, read) == Some(peers)
  {
    if lines != [] {
      CollectReads(Front(lines), Front(peers), read);
      assert Front(peers) + [Last(peers)] == peers;
    }
  }

  lemma PrintedParses<T>(lines: seq<string>, peers: seq<T>, read: string -> Item<T>)
    requires |lines| == |peers| && read("").Blank?
    requires forall i :: 0 <= i < |lines| ==> Free(lines[i], '\n') && read(lines[i]) == Item<T>.Peer(peers[i])
    ensures Collect(Split(Printed(lines), '\n'), read) == Some(peers)
  {
    CollectReads(lines, peers, read);
    SplitOfJoin(lines + [""], '\n');
    BlankLinesDoNotMatter(lines, "", [], read);
    assert lines + [""] + [] == lines + [""] && lines + [] == lines;
  }

  function TransferTexts(peers: seq<PeerTransfer>): (r: seq<string>)
    ensures |r| == |peers| && forall i :: 0 <= i < |r| ==> r[i] == TransferText(peers[i])
  {
    seq(|peers|, i requires 0 <= i < |peers| => TransferText(peers[i]))
  }

  /** Every peer list survives printing and parsing. */
  lemma TransferRoundTrip(peers: seq<PeerTransfer>)
    requires forall i :: 0 <= i < |peers| ==> Key(peers[i].publicKey)
    ensures Collect(Split(Printed(TransferTexts(peers)), '\n'), TransferItem) == Some(peers)
  {
    var lines := TransferTexts(peers);
    forall i | 0 <= i < |lines| ensures Free(lines[i], '\n') && TransferItem(lines[i]) == Item.Peer(peers[i]) {
      TransferLineReads(peers[i]);
    }
    PrintedParses(lines, peers, TransferItem);
  }

  function HandshakeTexts(keys: seq<string>, epochs: seq<int>): (r: seq<string>)
    requires |keys| == |epochs|
    ensures |r| == |keys| && forall i :: 0 <= i < |r| ==> r[i] == HandshakeText(keys[i], epochs[i])
  {
    seq(|keys|, i requires 0 <= i < |keys| => HandshakeText(keys[i], epochs[i]))
  }

  function Handshakes(keys: seq<string>, epochs: seq<int>): (r: seq<PeerHandshake>)
    requires |keys| == |epochs|
    ensures |r| == |keys| && forall i :: 0 <= i < |r| ==> r[i] == PeerHandshake(keys[i], HandshakeTime(epochs[i]))
  {
    seq(|keys|, i requires 0 <= i < |keys| => PeerHandshake(keys[i], HandshakeTime(epochs[i])))
  }

  lemma HandshakeRoundTrip(keys: seq<string>, epochs: seq<int>)
    requires |keys| == |epochs|
    requires forall i :: 0 <= i < |keys| ==> Key(keys[i]) && MIN_DURATION <= epochs[i] <= MAX_DURATION
    ensures Collect(Split(Printed(HandshakeTexts(keys, epochs)), '\n'), HandshakeItem) == Some(Handshakes(keys, epochs))
  {
    var lines, peers := HandshakeTexts(keys, epochs), Handshakes(keys, epochs);
    forall i | 0 <= i < |lines| ensures Free(lines[i], '\n') && HandshakeItem(lines[i]) == Item.Peer(peers[i]) {
      HandshakeLineReads(keys[i], epochs[i]);
    }
    PrintedParses(lines, peers, HandshakeItem);
  }

  // ---------------------------------------------------------------- totals

  /** The unbounded totals. */
  function Total(peers: seq<PeerTransfer>): (nat, nat) {
    if peers == [] then (0, 0)
    else (Total(Front(peers)).0 + Last(peers).rx, Total(Front(peers)).1 + Last(peers).tx)
  }

  lemma WrapOnce(total: nat, more: nat)
    ensures (total % WORD + more) % WORD == (total + more) % WORD
  {
    var q := total / WORD;
    assert total + more == WORD * q + (total % WORD + more);
  }

  /** `uint64` accumulation wraps, and wrapping at every step is wrapping once. */
  method SumTransfer(peers: seq<PeerTransfer>) returns (rx: Counter, tx: Counter)
    ensures rx == Total(peers).0 % WORD && tx == Total(peers).1 % WORD
  {
    rx, tx := 0, 0;
    for i := 0 to |peers|
      invariant rx == Total(peers[..i]).0 % WORD && tx == Total(peers[..i]).1 % WORD
    {
      assert Front(peers[..i + 1]) == peers[..i];
      WrapOnce(Total(peers[..i]).0, peers[i].rx);
      WrapOnce(Total(peers[..i]).1, peers[i].tx);
      rx := (rx + peers[i].rx) % WORD;
      tx := (tx + peers[i].tx) % WORD;
    }
    assert peers[..|peers|] == peers;
  }

  lemma {:induction false} TotalWithout(peers: seq<PeerTransfer>, i: nat)
    requires i < |peers|
    ensures var rest := Total(peers[..i] + peers[i + 1..]);
            Total(peers) == (rest.0 + peers[i].rx, rest.1 + peers[i].tx)
  {
    if i == |peers| - 1 {
      assert peers[..i] + peers[i + 1..] == Front(peers);
    } else {
      var rest := peers[..i] + peers[i + 1..];
      assert Front(rest) == Front(peers)[..i] + Front(peers)[i + 1..];
      TotalWithout(Front(peers), i);
    }
  }

  /** The order in which `wg` lists the peers does not matter. */
  lemma {:induction false} TotalIgnoresOrder(a: seq<PeerTransfer>, b: seq<PeerTransfer>)
    requires multiset(a) == multiset(b)
    ensures Total(a) == Total(b)
  {
    if a == [] {
      assert |multiset(b)| == 0;
    } else {
      var i := SameWithout(a, b);
      TotalIgnoresOrder(Front(a), b[..i] + b[i + 1..]);
      TotalWithout(b, i);
    }
  }

  method LatestHandshake(peers: seq<PeerHandshake>) returns (latest: Instant)
    ensures forall p :: p in peers ==> p.at <= latest
    ensures latest == ZERO_TIME || exists p :: p in peers && p.at == latest
    ensures latest >= ZERO_TIME
  {
    latest := ZERO_TIME;
    for i := 0 to |peers|
      invariant latest >= ZERO_TIME
      invariant forall j :: 0 <= j < i ==> peers[j].at <= latest
      invariant latest == ZERO_TIME || exists p :: p in peers && p.at == latest
    {
      if peers[i].at > latest { latest := peers[i].at; }
    }
  }

  /** `latest` is what `LatestHandshake` returns for these peers. */
  ghost predicate IsLatest(peers: seq<PeerHandshake>, latest: Instant) {
    && latest >= ZERO_TIME
    && (forall p :: p in peers ==> p.at <= latest)
    && (latest == ZERO_TIME || exists p :: p in peers && p.at == latest)
  }

  /** An epoch that `time.Unix` represents without wrapping. */
  predicate Representable(epoch: int) { epoch <= MAX_DURATION - UNIX_TO_INTERNAL }

  /** "No handshake yet" is reported exactly when no peer has a positive epoch that the clock can
      represent: an epoch beyond that wraps to before the zero time and is dropped. */
  lemma NoHandshakeExactlyWhen(keys: seq<string>, epochs: seq<int>, latest: Instant)
    requires |keys| == |epochs|
    requires forall i :: 0 <= i < |epochs| ==> MIN_DURATION <= epochs[i] <= MAX_DURATION
    requires IsLatest(Handshakes(keys, epochs), latest)
    ensures latest == ZERO_TIME <==> forall i :: 0 <= i < |epochs| ==> epochs[i] <= 0 || !Representable(epochs[i])
  {
    var peers := Handshakes(keys, epochs);
    forall i | 0 <= i < |epochs| ensures HandshakeTime(epochs[i]) <= latest {
      assert peers[i] in peers;
    }
    forall i | 0 <= i < |epochs|
      ensures HandshakeTime(epochs[i]) > ZERO_TIME <==> epochs[i] > 0 && Representable(epochs[i])
    {
      EpochWraps(epochs[i]);
    }
    if latest != ZERO_TIME {
      var p :| p in peers && p.at == latest;
      var i :| 0 <= i < |peers| && peers[i] == p;
      assert HandshakeTime(epochs[i]) > ZERO_TIME;
    }
  }

  /** The days from the first of January of year 1, Go's zero time, to that of another year. */
  function DaysBefore(year: nat): int
    requires year > 0
  {
    365 * (year - 1) + (year - 1) / 4 - (year - 1) / 100 + (year - 1) / 400
  }

  /** A positive epoch is that many seconds after the start of 1970, as long as 64 bits hold the seconds since
      the zero time; any other reads as no handshake or one before the zero time. */
  lemma EpochWraps(epoch: int)
    requires MIN_DURATION <= epoch <= MAX_DURATION
    ensures HandshakeTime(epoch) > ZERO_TIME <==> epoch > 0 && Representable(epoch)
    ensures epoch > 0 && Representable(epoch) ==> HandshakeTime(epoch) == (DaysBefore(1970) * 86_400 + epoch) * SECOND
  {
    if epoch > 0 {
      assert (epoch + UNIX_TO_INTERNAL) % WORD == epoch + UNIX_TO_INTERNAL;
    }
  }

  /** `WGReader.Sample`: either command failing or printing a malformed line is an error, and then the
      poll has no counters at all. */
  method Sample(transferOut: Option<string>, handshakeOut: Option<string>) returns (r: Option<WgReading>)
    ensures r.Some? <==> && transferOut.Some? && Collect(Split(transferOut.value, '\n'), TransferItem).Some?
                         && handshakeOut.Some? && Collect(Split(handshakeOut.value, '\n'), HandshakeItem).Some?
    ensures r.Some? ==>
              && r.value.rx == Total(Collect(Split(transferOut.value, '\n'), TransferItem).value).0 % WORD
              && r.value.tx == Total(Collect(Split(transferOut.value, '\n'), TransferItem).value).1 % WORD
              && IsLatest(Collect(Split(handshakeOut.value, '\n'), HandshakeItem).value, r.value.latest)
  {
    if transferOut.None? { return None; }
    var peers := ParseTransfer(transferOut.value);
    if peers.None? { return None; }
    var rx, tx := SumTransfer(peers.value);
    if handshakeOut.None? { return None; }
    var hs := ParseLatestHandshakes(handshakeOut.value);
    if hs.None? { return None; }
    var latest := LatestHandshake(hs.value);
    r := Some(WgReading(rx, tx, latest));
  }
}
