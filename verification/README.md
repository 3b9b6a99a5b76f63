# Helix Proxy control plane: a verified model

Helix Proxy sends client traffic through VPN tunnels and refuses it when a tunnel is not proved to be
up. A health daemon polls every tunnel and writes its status to Redis with a time to live. A Squid helper
answers each request from two Redis keys. A compiler turns the tables of the control API into Squid, Dante
and PAC files and into route keys. The control API audits every change in the transaction that makes it.

This project models that control plane in Dafny and proves what it promises:

* **No answer without recent proof.** In every interleaving of ticks, writes, expiries, crashes, lost keys,
  garbled bytes and requests, `OK tag=u` is answered only for a host whose latest route led to `u`, and only while
  some poll of `u` with a real egress and a fresh proof is at most one time to live plus one poll interval
  old (`Pipeline.EveryAllowIsJustified`). That bound is reached (`Faults.AgeBoundIsReached`), and faults can
  only turn answers into refusals (`Faults.FaultsOnlyRefuse`).
* **And exactly what is due.** In every run each key holds the last stored poll, up or down, that was not lost
  since, and each request gets the answer due at its two reads (`Trace.KeysHoldWhatStands`,
  `Trace.AnswersAreDue`); so a stored down refuses at once (`Trace.DownRefusesAtOnce`).
* **Nothing leaves unproven.** Around the include that a compile renders, in any base text that routes nothing,
  what Squid lets out leaves through an enabled profile's peer, and the request's own Host header was allowed by
  the helper at the configured path (`EndToEnd.CompiledTextLeavesNothingUnproven`,
  `External.TunUpIsTheHelpersAnswer`). Reading the rendered text back gives the wiring, the peers at their own
  addresses and the fail-closed block (`Squid.IncludeReadsBackExactly`, `EndToEnd.RenderedPeersExactly`).
* **And what is proved stays up.** In every run that keeps to its schedule, the status of a tunnel that polls
  find up reads up from its first write on, exactly when the time to live and the helper's freshness window
  span two poll intervals (`Availability.StaysUpExactly`).
* **Compilation preserves meaning.** After a compile and seed the helper's answer for a host is given by the
  tables alone (`Meaning.CompilationPreservesMeaning`), also after a seed that failed half way
  (`Meaning.PartialSeedExactly`) and in the middle of a run (`EndToEnd.EveryAllowIsServed`).
* **The line protocol is exact.** Every input line gets one reply, in order, that Squid reads back as the
  verdict for that line's host on that line's channel, exactly when tags stand for themselves in Squid's reply
  syntax (`AclProtocol.StreamReadsBackExactly`); an `OK` line in the helper's output rests on a timely poll
  (`EndToEnd.EveryOkLineIsJustified`).
* **Every mutation is audited.** Over all interleavings and faults the store is the committed mutations that
  wrote a row, in commit order, and the log is the entries of all of them (`Audit.MutationsAreAudited`), each
  with the actor and the operation of its request and the id of the row it wrote (`History.EntriesAreSigned`).

## Layout

| file | models |
|---|---|
| `Text.dfy`, `Sorting.dfy` | Go's string, number and sort primitives |
| `Vpn.dfy`, `Wireguard.dfy`, `Healthd.dfy`, `Expiry.dfy` | health verdict, `wg` parsers, poll loop, time to live |
| `Bus.dfy`, `Decide.dfy`, `Replies.dfy`, `AclProtocol.dfy` | Redis keys, request verdict, Squid's reply syntax, helper protocol and loop |
| `Pipeline.dfy`, `Trace.dfy`, `Faults.dfy`, `Availability.dfy` | healthd, Redis and the helper as one timed state machine, and what a run leaves, read off its steps |
| `Names.dfy`, `ConfigText.dfy`, `Squid.dfy`, `Access.dfy`, `External.dfy` | peer names, Squid's line syntax, generated include as text, what the assembled configuration lets out, how an external acl is decided |
| `Store.dfy`, `Routing.dfy`, `Pac.dfy`, `Meaning.dfy` | tables, compiler, PAC files, what a compile means |
| `Breaker.dfy`, `Selection.dfy` | circuit breakers, tier failover |
| `Audit.dfy`, `History.dfy` | audited transactions, what their history says |
| `EndToEnd.dfy` | the pieces together |

A step that is not enabled changes nothing, so every sequence of steps is a run and a lemma over all
sequences is a lemma over all schedules. Instants are nanoseconds from Go's zero time, durations are 64-bit
and instant subtraction saturates. Where Go works on bytes a `char` stands for one byte.

## Assumptions

* Redis: a key set at `w` with time to live `d` is returned up to `w + d` and not later. A status write takes
  effect, if at all, before the deadline of its tick.
* healthd and the helper read one clock. A Redis read and the clock reading after it are one step.
* JSON: what was marshalled unmarshals to the same value. Other bytes are an arbitrary `Garbled`.
* Squid: rules of one kind are tried in order, the first match decides, and without a match the opposite of
  the last rule holds. A denied client gets the page of the first `deny_info` that names the last acl of the
  rule. Requests are forwarded to parents only. An external acl is decided by its helper's answer to the words of
  its format, and an answer serves other requests only within a positive `ttl` or `negative_ttl`
  (`External.Answers`). Only the directives of
  `Squid.Routes` decide who is let in and which way a request goes, bring in or leave out such directives, or
  change how words are read; a base around the include may hold none of them but `http_access`
  (`Access.PassiveTextExactly`).
* Squid's configuration text: what continues a line, what ends it as a comment and what separates words is
  stated at the head of `ConfigText.dfy`. Lines fit Squid's buffer, and macros are not used.
* Squid's reply syntax, in the default helper protocol of Squid 6: stated at the head of `Replies.dfy`. Values
  end at ASCII white space, know quotes and backslashes, and are URL-unescaped.
* The circuit breaker library: one atomic step per call, with the states and transitions of `Breaker.Probe`.
* The database, at PostgreSQL's default isolation: a transaction is visible as a whole at commit or not at
  all. An upsert locks its key until its transaction ends, and so does an update or delete of a committed
  row; a statement waits for a lock it needs. An update or delete that finds no committed row locks nothing
  and waits for nobody. Row ids and audit ids never repeat.

## Where the code does not do what it is meant to

* `config/squid/squid.dynamic.conf` says that without the include every request falls through to
  `deny all`. Its own `allow localhost` stands before the include, so requests from the host itself are
  admitted and leave directly (`Access.ShippedMissingInclude`). With the include in place they are admitted
  without a tunnel check but cannot leave (`Access.ShippedFailsClosed`).
* The helper's tag is documented to select the tunnel's peer. The include never looks at it: an allowed
  request may use every rendered peer (`EndToEnd.TagConfinesExactly`).
* A poll that is up by its probe alone has no counters and erases the tx baseline
  (`Healthd.BaselineHoldsExactlyUntilProbe`). So up ticks may outnumber the bytes sent, by at most two for
  each such tick (`Healthd.UpTicksAreBounded`, `Healthd.ProbeBreaksTheBound`).
* A delete that looks for its row before the insert of it is committed, and commits after it, is confirmed
  and audited although the row stays; replaying the log then loses that row
  (`History.DeleteCanBeOvertaken`, `History.RowsAreReplayExactly`).
* The default time to live is meant to be three poll intervals. In whole seconds it is less, and for an
  interval strictly between 1/2 s and 2/3 s it is shorter than the gap between two on-time writes can be. For
  intervals of about 195 years and more three intervals overflow, with the same effect
  (`Expiry.DefaultTtlBridgesExactly`, `Expiry.DefaultTtlCanLapse`).
* From 9223372037 seconds on, the time to live overflows, and that value sets no expiry
  (`Bus.TtlIsExactUpTo292Years`).
* Seeding never deletes, so a removed route keeps answering (`Meaning.StaleRoutesExactly`), and a failing write
  leaves the later routes as they were (`Meaning.PartialSeedExactly`).
* Two profiles may get one peer name, exactly when their names are alike rune for rune up to runes that come
  out as `_` (`Names.PeerNamesCollideExactly`, `Names.PeerNamesMayCollide`); the rendered peers have different
  names exactly when no two enabled profiles are alike (`Routing.PeerNamesDifferExactly`).
* A numeric `peer_port` between 0 and 1 becomes port 0 (`Routing.PeerPortExactly`). A handshake epoch near the
  64-bit limit reads as no handshake (`Wireguard.NoHandshakeExactlyWhen`).
* A profile name with white space, a quote, a backslash or a URL escape makes a tag that Squid misreads
  (`AclProtocol.SomeTagsAreMisread`, `AclProtocol.StreamReadsBackExactly`), and one with a newline puts the
  replies out of step (`AclProtocol.OneReplyPerLineExactly`, `AclProtocol.NewlineTagShiftsReplies`).
* A host override that is not one word, and a helper path that gets lost at the end of its line or starts with
  `%` as a format does, make an include that does not read back (`EndToEnd.CompiledIncludeReadsBackExactly`).
* The two PAC renderers are meant to agree. The compiler's proxy is a flag and the API's is fixed, so with
  another proxy they differ on every host of a target (`Pac.OwnProxyDiffers`); and the API drops empty aliases,
  which it does not accept itself (`Pac.FilesAgreeExactly`, `Pac.FilesAlwaysAgreeExactly`).

## Model

| member | source | states |
|---|---|---|
| Vpn.DecideHealth | control-plane/internal/vpn/health.go:43-91 | up if and only if there is a real egress other than the host's and a handshake with new bytes, or a probe, within the freshness window on plain instants; otherwise down |
| Healthd.Sample | control-plane/cmd/healthd/main.go:64-100 | only an unreachable gluetun is a failure; a failed `wg` read or probe leaves zero facts beside the egress |
| Healthd.PollOnce | control-plane/cmd/healthd/main.go:105-113 | a failed sample is a fresh down snapshot without counters, any other is judged against the baseline |
| Healthd.PollReports | control-plane/cmd/healthd/main.go:64-113 | what every poll reports, fact by fact: each source for itself, so that a probe beside a `wg` reading keeps the counters and a failed one takes nothing away |
| Healthd.PollFindsUpExactly | control-plane/cmd/healthd/main.go:105-113 | a poll finds the tunnel up if and only if gluetun was reached with a real egress other than the host's and either new bytes over the baseline came with a recent handshake or the probe got through |
| Healthd.ProfileLoop.constructor | control-plane/cmd/healthd/main.go:118-120 | a loop starts from the zero baseline and the unknown state |
| Healthd.ProfileLoop.Tick | control-plane/cmd/healthd/main.go:124-144 | which event a tick attempts and what it carries over, whether or not publishing succeeds |
| Healthd.ProfileLoop.Run | control-plane/cmd/healthd/main.go:118-155 | over any ticks the attempted events are the state changes, the delivered ones a subsequence, and all of them if every publish succeeds |
| Healthd.EventLogIsDestuttering | control-plane/cmd/healthd/main.go:131-138 | the event log has no two equal neighbours, starts with a change from unknown and ends in the last computed state |
| Healthd.LastReportedIsLastState | control-plane/cmd/healthd/main.go:131-138 | after any run the last reported state is the last computed one |
| Healthd.BaselineIsLatestReading | control-plane/cmd/healthd/main.go:140-143 | in every run in which no tick was up by its probe, configured or not, the baseline is the latest poll that carried counters |
| Healthd.UpExceedsLatestReading | control-plane/cmd/healthd/main.go:124-144 | a tick that the counters prove up sent more bytes than the latest reading before it, unless a tick since then was up by its probe alone |
| Healthd.UpTicksAreBounded | control-plane/cmd/healthd/main.go:124-144 | in every run without counter resets there are at most as many up ticks as bytes sent, plus two for each tick that only its probe made up |
| Healthd.BaselineHoldsExactlyUntilProbe | control-plane/cmd/healthd/main.go:140-143 | the baseline is the latest reading if and only if no tick since then was up by probe alone |
| Healthd.ProbeBreaksTheBound | control-plane/cmd/healthd/main.go:140-143 | a run that reaches that bound, with more up ticks than bytes |
| Healthd.BlindTicksKeepBaseline | control-plane/cmd/healthd/main.go:140-143 | polls without counters and proof, in any number, keep the baseline |
| Healthd.CounterResetRecovers | control-plane/cmd/healthd/main.go:124-144 | after a counter reset one reading is down and becomes the baseline, and the next growing, fresh reading is up, whatever blind polls lie between |
| Expiry.TtlSeconds | control-plane/cmd/healthd/main.go:211-219 | a positive override as it is, else the most whole seconds within three intervals but at least one |
| Expiry.DefaultTtlBounds | control-plane/cmd/healthd/main.go:213-218 | the default as it reaches Redis is at least two intervals, or no expiry, exactly outside two ranges of intervals |
| Expiry.BridgedWhenLongEnough | control-plane/cmd/healthd/main.go:213-218 | two intervals of time to live bridge every schedule of on-time writes |
| Expiry.GapWhenTooShort | control-plane/cmd/healthd/main.go:213-218 | a shorter time to live leaves a gap under some on-time schedule |
| Expiry.DefaultTtlBridgesExactly | control-plane/cmd/healthd/main.go:213-218 | with the default no on-time schedule lets the key lapse if and only if the interval is not strictly between 1/2 s and 2/3 s and three intervals do not overflow 64 bits past zero |
| Expiry.DefaultTtlCanLapse | control-plane/cmd/healthd/main.go:213-218 | one lapsing interval in each range |
| Wireguard.ParseTransfer | control-plane/internal/vpn/wg.go:38-60 | the loop yields the peers of all lines, or nothing if one is malformed |
| Wireguard.ParseLatestHandshakes | control-plane/internal/vpn/wg.go:73-95 | as above for handshakes, with a positive epoch as time and any other as the zero time |
| Wireguard.FailsExactlyOnBadLine | control-plane/internal/vpn/wg.go:38-95 | parsing fails if and only if some line is malformed |
| Wireguard.BlankLinesDoNotMatter | control-plane/internal/vpn/wg.go:40-44 | a blank line anywhere changes nothing |
| Wireguard.CarriageReturnsDoNotMatter | control-plane/internal/vpn/wg.go:40-44 | carriage returns at a line end change nothing in that line |
| Wireguard.ReturnsInOutputDoNotMatter | control-plane/internal/vpn/wg.go:38-95 | carriage returns before any newlines of a whole output change nothing in either parse |
| Wireguard.PaddingDoesNotMatter | control-plane/internal/vpn/wg.go:38-95 | white space around the fields of a line changes nothing, whether or not the line is malformed |
| Wireguard.TransferRoundTrip | control-plane/internal/vpn/wg.go:38-60 | every peer list survives printing and parsing |
| Wireguard.HandshakeRoundTrip | control-plane/internal/vpn/wg.go:73-95 | every key and 64-bit epoch list survives printing and parsing |
| Wireguard.SumTransfer | control-plane/internal/vpn/wg.go:63-69 | wrapping at each step equals the unbounded totals wrapped once |
| Wireguard.TotalIgnoresOrder | control-plane/internal/vpn/wg.go:63-69 | the totals do not depend on the order of the peers |
| Wireguard.LatestHandshake | control-plane/internal/vpn/wg.go:99-107 | an upper bound of all handshake times that is one of them or the zero time |
| Wireguard.NoHandshakeExactlyWhen | control-plane/internal/vpn/wg.go:88-107 | the zero time is reported if and only if no epoch is both positive and representable |
| Wireguard.EpochWraps | control-plane/internal/vpn/wg.go:88-92 | a positive epoch is that many seconds after the start of 1970 in the Gregorian calendar counted from year 1, and which epochs wrap to before the zero time |
| Wireguard.Sample | control-plane/internal/vpn/wg.go:125-145 | succeeds if and only if both commands ran and both outputs parse, and then holds the wrapped totals and the latest handshake |
| Bus.KeysNeverCollide | control-plane/internal/redis/client.go:39-40 | status and route keys are disjoint and each injective |
| Bus.TtlIsExactUpTo292Years | control-plane/internal/redis/client.go:110-113 | the conversion to nanoseconds is exact if and only if the seconds are at most 9223372036, and the next value is negative |
| Bus.EvaluateStatus | control-plane/internal/redis/client.go:82-101 | reads up if and only if the key is there, decodes, says up and is fresh; a missing or undecodable key is a down of the asked profile, now; any other answer is the stored snapshot with at most its state lowered and an empty profile filled in |
| Bus.Client.constructor | control-plane/internal/redis/client.go:54-56 | an empty bus with the given freshness window |
| Bus.Client.SetStatus | control-plane/internal/redis/client.go:105-118 | stores the snapshot with its expiry, or nothing on a fault |
| Bus.Client.GetStatus | control-plane/internal/redis/client.go:122-135 | a fault, a miss and an expired key all read down; otherwise the fail-closed reading of the key |
| Bus.Client.SetRoute | control-plane/internal/redis/client.go:138-147 | replaces the route of its target only, or nothing on a fault |
| Bus.Client.GetRoute | control-plane/internal/redis/client.go:151-164 | the stored route, and none on a fault, a miss or undecodable bytes |
| Decide.VerdictFor | control-plane/internal/aclhelper/decide.go:47-70 | allows if and only if the host has a decodable route whose tunnel reads up, and the tag is that tunnel |
| AclProtocol.UnescapeInvertsSpelling | control-plane/internal/aclhelper/protocol.go:60-65 | decoding gives a host if and only if the word spells it in the percent-encoding of section 2.1 of RFC 3986 |
| AclProtocol.Escape | control-plane/internal/aclhelper/protocol.go:60-65 | every byte string has a spelling without white space |
| AclProtocol.ParseOfFramedLine | control-plane/internal/aclhelper/protocol.go:45-66 | every spelling of a host, in either framing and with any line ending, parses to that channel and host |
| AclProtocol.ParsedHostExactly | control-plane/internal/aclhelper/protocol.go:45-66 | for every line the channel is its first word if that is all digits and another follows, and else empty; the host is what the word after it spells, trimmed, and empty if and only if that is empty or it spells nothing |
| AclProtocol.ExtraWordsDoNotMatter | control-plane/internal/aclhelper/protocol.go:48-59 | words after the host change nothing |
| AclProtocol.UndecodableKeepsChannel | control-plane/internal/aclhelper/protocol.go:51-65 | a word that spells nothing gives an empty host on the same channel, in every framing with a channel and with any line ending |
| AclProtocol.SomeWordSpellsNothing | control-plane/internal/aclhelper/protocol.go:60-65 | there is such a word |
| AclProtocol.ChannelIsIdOrEmpty | control-plane/internal/aclhelper/protocol.go:51-59 | the channel is a digit string or empty for every line, and a blank line has neither channel nor host |
| AclProtocol.FormatReply | control-plane/internal/aclhelper/protocol.go:72-89 | builds the reply for its channel and verdict, ended by one newline |
| Replies.TagReadsBackExactly | control-plane/internal/aclhelper/protocol.go:79-81 | Squid reads a tag as itself if and only if it holds no white space, quote, backslash or NUL and, above two characters, no URL escape |
| AclProtocol.ReplyReads | control-plane/internal/aclhelper/protocol.go:72-89 | whatever the tag, Squid reads the channel of a reply and whether it allows |
| AclProtocol.ReplyReadsBackExactly | control-plane/internal/aclhelper/protocol.go:72-89 | a reply reads back as its channel and verdict if and only if its tag stands for itself |
| AclProtocol.SomeTagsAreMisread | control-plane/internal/aclhelper/protocol.go:72-89 | a tag with a blank and a tag with a URL escape that do not read back |
| AclProtocol.HostlessIsRefused | control-plane/cmd/acl-helper/main.go:115-122 | a line without a usable host is refused on its channel, whatever the bus answers |
| AclProtocol.AnswerLine | control-plane/cmd/acl-helper/main.go:95-99 | one line is answered with the verdict for its host on its channel |
| AclProtocol.Turn | control-plane/cmd/acl-helper/main.go:93-108 | one turn of the loop answers the next line, if there is one, and moves past it |
| AclProtocol.Loop | control-plane/cmd/acl-helper/main.go:84-110 | answers exactly the lines before cancellation, the first failing write or the end of input, then the bytes that got out of the failing reply, and fails exactly on a failing write |
| AclProtocol.OneReplyPerLineExactly | control-plane/cmd/acl-helper/main.go:84-110 | for every input and bus the output splits into one reply per input line, in order, if and only if no answered tag holds a newline |
| AclProtocol.StreamReadsBackExactly | control-plane/cmd/acl-helper/main.go:84-110 | for every input and bus every output line reads back as the verdict for its input line, on its channel, if and only if every answered tag stands for itself |
| AclProtocol.EveryLineReads | control-plane/cmd/acl-helper/main.go:84-110 | without newlines in tags Squid reads from every output line the channel and the decision for its input line, even where it misreads the tag |
| AclProtocol.NewlineTagShiftsReplies | control-plane/cmd/acl-helper/main.go:84-110 | a tag with a newline and `OK` makes the second reply `OK`, whatever the second request was |
| AclProtocol.LinesPartition | control-plane/cmd/acl-helper/main.go:86-108 | the lines are a cut of the input with newlines only at line ends, and only the last may lack one |
| Pipeline.RunKeepsInv | control-plane/cmd/healthd/main.go:118-155 | every step of every run keeps each stored up backed by a poll and each key's expiry within one time to live plus one interval of it |
| Pipeline.EveryAllowIsJustified | control-plane/internal/aclhelper/decide.go:47-70 | in every run an allowed request carries the latest route seeded for its host at some time after it came in, and rests on a poll with full evidence, within time to live plus interval and within the freshness window |
| Trace.PollersFollowTicks | control-plane/cmd/healthd/main.go:118-155 | in every run each poller carries exactly what the loop would after the ticks it has finished since its last crash, and stands where its steps have brought it |
| Trace.RecordsArePolls | control-plane/cmd/healthd/main.go:105-113 | in every run the polls are those of the ticks that were sampled, each judged against the baseline of the finished ticks |
| Trace.KeysHoldWhatStands | control-plane/cmd/healthd/main.go:124-130 | in every run each status key holds the last poll, up or down, that was written within its tick, with its expiry counted from that write, unless the key was lost or garbled since |
| Trace.StatusReadsWhatStands | control-plane/internal/redis/client.go:122-135 | in every run a status reads up if and only if the poll that stands says up, has not expired and is not too old |
| Trace.RoutesHoldWhatStands | control-plane/cmd/compiler/main.go:109-114 | in every run a route read finds the last route seeded for its host, unless that was lost or garbled since |
| Trace.AnswersAreDue | control-plane/internal/aclhelper/decide.go:47-70 | in every run each request has got exactly the answer due: refused at a route read that fails or leads nowhere, and at the status read allowed with the tag of that route if and only if its tunnel's status stands up |
| Trace.DownRefusesAtOnce | control-plane/cmd/healthd/main.go:124-130 | a request that was allowed with a tunnel's tag before any up was stored after one of its down polls had been allowed already before that down was stored |
| Faults.FaultsOnlyRefuse | control-plane/internal/redis/client.go:122-164 | a request allowed in a run with faults is allowed with the same tag at the same time in the run without them |
| Faults.OldUpDiesWithItsKey | control-plane/cmd/healthd/main.go:128-130 | while writes are lost, an up that is still read is the old key's and is read before that key expires |
| Faults.AgeBoundIsReached | control-plane/cmd/healthd/main.go:124-130 | some run answers exactly one time to live plus one interval after the only poll |
| Availability.PlanKeepsInv | control-plane/cmd/healthd/main.go:118-155 | in every run on schedule the key is there from the first write on, says up, and is as fresh and as long-lived as a write at the start of the last finished tick |
| Availability.StaysUpExactly | control-plane/cmd/healthd/main.go:118-155 | in every run on schedule the status reads up from the first write on if and only if time to live and freshness window, where there are any, span two intervals |
| Availability.DefaultStaysUpExactly | control-plane/cmd/healthd/main.go:211-219 | the same with the default time to live, with the two excluded ranges of intervals |
| Availability.RoutedHostIsAllowed | control-plane/internal/aclhelper/decide.go:47-70 | and then every host routed to the tunnel is allowed with its tag |
| Names.SanitizeToken | control-plane/internal/routing/routing.go:249-264 | the loop over the runes computes the sanitized name |
| Names.Sanitized | control-plane/internal/routing/routing.go:249-264 | always one plain word, and a plain word is kept |
| Names.OneMarkPerCharacter | control-plane/internal/routing/routing.go:251-259 | in the UTF-8 encoding of any characters each gives one mark, itself if plain and else `_` |
| Names.PeerNamesCollideExactly | control-plane/internal/routing/routing.go:249-264 | two names come out the same if and only if they agree rune for rune up to runes that come out as `_`, the empty name standing for "unnamed" |
| Names.PeerNamesMayCollide | control-plane/internal/routing/routing.go:249-264 | three different profile names with one peer name |
| Routing.PeerNamesDifferExactly | control-plane/internal/routing/routing.go:202-218 | the rendered peers have different names if and only if no two enabled profiles are alike |
| Squid.IncludeReadsBack | control-plane/internal/routing/routing.go:268-313 | the rendered text reads back as the external acl on the Host header with both times to live zero and the helper's path, `tun_up` over it, one unqueried parent with its allow and deny per tunnel in order, and the fail-closed block with its error page once |
| Squid.IncludeReadsBackExactly | control-plane/internal/routing/routing.go:268-313 | it does so if and only if every peer host is a word and the helper path one that does not get lost at the end of its line and does not start with `%` |
| Squid.BackslashLosesALine | control-plane/internal/routing/routing.go:303-313 | a helper path that ends in a backslash loses a directive |
| Squid.FormatLosesThePath | control-plane/internal/routing/routing.go:281-282 | a helper path that starts with `%` is read as more of the format, and the wiring is lost |
| Access.AssembledReads | config/squid/squid.dynamic.conf:104-105 | splicing the include's text into a base whose lines end is splicing its directives |
| Access.PassiveTextExactly | config/squid/squid.dynamic.conf:79-105 | base text routes nothing if and only if each of its directive lines that starts with a routing word is an `http_access` line |
| Access.ContinuedLineRoutes | config/squid/squid.dynamic.conf:79-105 | a line continued over a backslash counts as the whole it makes |
| Access.AdmittedExactly | control-plane/internal/routing/routing.go:290-298 | admitted if and only if the base decides so first, or else the tunnel is up and the client local |
| Access.LeavesExactly | control-plane/internal/routing/routing.go:283-298 | in a base that routes nothing a request leaves if and only if admitted, through a rendered peer, with the tunnel up; never directly |
| Access.DownIsExplained | control-plane/internal/routing/routing.go:294-297 | a client that the base leaves to the include is refused with the 503 page whenever the tunnel is down |
| External.TunUpIsTheHelpersAnswer | control-plane/internal/routing/routing.go:281-282 | in every base that leaves the two names alone Squid finds `tun_up` to have a value if and only if the helper at the configured path, by default /usr/lib/helix-proxy/acl-helper, answered so for this very request's Host header; no earlier answer stands in |
| Access.AlwaysDirectDefeatsInclude | control-plane/internal/routing/routing.go:290-298 | with one `always_direct allow all` in the base every admitted request leaves directly instead |
| Access.MissingIncludeExactly | config/squid/squid.dynamic.conf:88-105 | without the include a request leaves if and only if the base admits it by itself, and then directly |
| Access.RenderedTextFailsClosed | control-plane/internal/routing/routing_failclosed_test.go:43-95 | in any base text that allows nothing before it, the rendered text admits only local clients with the tunnel up, and without it nothing is admitted |
| Access.ShippedMissingInclude | config/squid/squid.dynamic.conf:80-105 | the shipped base without the include lets a request out if and only if it comes from the host itself to a safe port |
| Access.ShippedFailsClosed | config/squid/squid.dynamic.conf:80-105 | the shipped base with the include lets nothing out while the tunnel is down |
| Store.UpsertReplaces | control-plane/internal/store/postgres.go:158-161 | an upsert replaces the row of its key and touches no other |
| Store.UpsertAcceptedExactly | sql/schema.sql:124-136 | an upsert is accepted if and only if no other row of the target has its profile |
| Store.TierOpsKeepKeys | sql/schema.sql:124-136 | every run of upserts, deletes and cascades keeps both keys unique and tiers non-negative |
| Store.TierOpLeaves | control-plane/internal/store/postgres.go:158-163 | which rows each upsert, delete and cascade leaves, in terms of target, profile and tier |
| Store.ListTiersAscends | control-plane/internal/store/postgres.go:155-156 | the listed chain is exactly the target's rows, strictly ascending |
| Routing.PeerPortExactly | control-plane/internal/routing/routing.go:223-245 | the port is the configured positive number in either JSON form and else 8888, zero, negative and unreadable texts included, and is 0 if and only if the number is a fraction below one |
| Routing.ResolveTunnels | control-plane/internal/routing/routing.go:202-218 | the loop yields the tunnels that `Routing.TunnelsDial` describes |
| Routing.TunnelsAreEnabledProfiles | control-plane/internal/routing/routing.go:202-218 | the tunnels are a permutation of the enabled profiles', in name order |
| Routing.TunnelsDial | control-plane/internal/routing/routing.go:202-245 | the tunnels are, one by one, the enabled profiles in name order, each named `tun_` and its sanitized name, at its host override or else `gluetun-` and its sanitized name, on its port, cut to a whole number, or else 8888 |
| Routing.TunnelsIgnoreOrder | control-plane/internal/routing/routing.go:216-217 | with unique names the result does not depend on the order of the table |
| Routing.CompileAll | control-plane/internal/routing/routing.go:120-179 | fails if and only if a read that it reaches fails, and otherwise yields all four artifacts of the tables |
| Routing.SeedRoutes | control-plane/cmd/compiler/main.go:109-114 | stops at the first failing write and reports how many routes it wrote |
| Routing.SeededHolds | control-plane/cmd/compiler/main.go:109-114 | each key holds the last route of its target, and keys without one stay |
| Meaning.PrimaryTunnelIs | control-plane/internal/routing/routing.go:184-197 | the compiler's primary is the profile first in line by the tables' own meaning |
| Meaning.RouteOfIs | control-plane/internal/routing/routing.go:142-170 | a target gets a route if and only if it is enabled and its primary profile is enabled |
| Meaning.RoutedExactly | control-plane/internal/routing/routing.go:142-170 | a host is routed to a name if and only if the tables serve it through that profile |
| Meaning.CompiledExactly | control-plane/internal/routing/routing.go:142-170 | one route key and one SOCKS entry for each target with an enabled primary profile, in order and no others: alias, profile name, lowest tier or 0 and `closed`; private address and that profile's own peer name, host and port |
| Meaning.CompilationPreservesMeaning | control-plane/internal/routing/routing.go:120-179 | after compile and seed the helper answers `OK tag=name` if and only if the tables serve the host through `name` and its status reads up |
| Meaning.StaleRoutesExactly | control-plane/cmd/compiler/main.go:109-114 | on a store with old routes the answers stay those of a fresh one if and only if the host has a new route or had no usable old one |
| Meaning.SameAnswersExactly | control-plane/internal/aclhelper/decide.go:47-70 | two stores give the same answers in every state of the tunnels if and only if they lead to the same tunnel |
| Meaning.PartialSeedExactly | control-plane/cmd/compiler/main.go:109-114 | after a seed that stopped at any write the answers for a host are those of a whole seed if and only if its route was written or the store led to the same tunnel before |
| Meaning.RoutedHostsUseTheProxy | control-plane/internal/routing/routing.go:354-366 | every routed host goes to the proxy in the compiler's PAC file |
| Meaning.PacSendsExactly | control-plane/internal/routing/routing.go:354-366 | the compiled PAC file sends a host to the proxy, by default proxy-squid:34128, if and only if an enabled target's alias matches it, and any other host directly |
| Pac.FileDenotesItsGlobs | control-plane/internal/routing/routing.go:340-350 | a file with one proxy sends a host there if and only if some glob matches, in any order |
| Pac.RenderedDenotes | control-plane/internal/routing/routing.go:354-366 | the compiler's file sends exactly the hosts that some alias matches to the proxy |
| Pac.RenderedIgnoresOrder | control-plane/internal/routing/routing.go:354-366 | order and repetition of the targets do not matter |
| Pac.Generate | control-plane/internal/pac/generate.go:46-64 | keeps the entries with a glob, fills in their proxies and sorts them |
| Pac.GeneratedExactly | control-plane/internal/pac/generate.go:46-64 | the sorted file holds exactly the entries with a glob, each with its own proxy or else the default one |
| Pac.ServedDenotes | control-plane/internal/api/handlers.go:546-568 | the served file sends exactly the hosts that some non-empty alias matches to the proxy |
| Pac.ServedIgnoresOrder | control-plane/internal/api/handlers.go:546-568 | order and repetition of the targets do not matter here either |
| Pac.FilesAgreeExactly | control-plane/internal/api/handlers.go:551-558 | for every compiler proxy the files agree on a host if and only if the compiler has the API's proxy where a non-empty alias matches, and elsewhere unless host and some alias are empty and that proxy is not DIRECT |
| Pac.FilesAlwaysAgreeExactly | control-plane/internal/pac/generate.go:46-64 | when the two files of one set of targets agree on all hosts |
| Pac.OwnProxyDiffers | control-plane/cmd/compiler/main.go:44 | one proxy, target and host on which they differ |
| Breaker.Registry.constructor | control-plane/internal/breaker/tunnelbreaker.go:113-115 | an empty registry |
| Breaker.Registry.Get | control-plane/internal/breaker/tunnelbreaker.go:118-127 | creating a breaker changes what no tunnel answers |
| Breaker.Registry.Record | control-plane/internal/breaker/tunnelbreaker.go:84-130 | feeds one outcome to its tunnel's breaker and touches no other |
| Breaker.Registry.IsClosed | control-plane/internal/breaker/tunnelbreaker.go:96-139 | closed is answered only in the closed state, not half-open |
| Breaker.BreakersAreIndependent | control-plane/internal/breaker/tunnelbreaker.go:102-139 | a tunnel's answer depends only on its own outcomes, whatever else is recorded, asked or created |
| Breaker.AloneFollowsOutcomes | control-plane/internal/breaker/tunnelbreaker.go:66-91 | a breaker fed with any outcomes is closed with their trailing failures, below the threshold, unless some failure tripped it and no success came after the cooldown; then it is open for the cooldown from the last trip, with 3 failures and 30 s as defaults |
| Breaker.ReportedClosedExactly | control-plane/internal/breaker/tunnelbreaker.go:96-139 | in every interleaving the registry reports a tunnel closed if and only if no opening stands in its own outcomes |
| Breaker.OpensExactlyAtThreshold | control-plane/internal/breaker/tunnelbreaker.go:66-78 | in every interleaving a tunnel reported closed is so after one more outcome if and only if that was a success or the trailing failures stay below the threshold |
| Breaker.ClosedMeansFewFailures | control-plane/internal/breaker/tunnelbreaker.go:96-139 | in every interleaving a tunnel reported closed has fewer trailing failures than the threshold, 3 by default |
| Breaker.OpenIgnoresProbes | control-plane/internal/breaker/tunnelbreaker.go:80-91 | in every interleaving outcomes within the cooldown from the trip, in any number, leave the tunnel not closed |
| Breaker.FirstProbeAfterCooldownDecides | control-plane/internal/breaker/tunnelbreaker.go:66-91 | in every interleaving the first outcome later than the cooldown from the trip, whatever came within it, closes the tunnel if and only if it is a success |
| Breaker.FailedProbeReopens | control-plane/internal/breaker/tunnelbreaker.go:66-91 | and if it is a failure, the cooldown counts anew from it, and the first outcome after that decides again |
| Selection.SelectTunnel | control-plane/internal/breaker/selection.go:25-48 | an eligible tunnel of least tier, the first of its tier, and none if none is eligible or there is no view |
| Selection.ChoiceIgnoresOrder | control-plane/internal/breaker/selection.go:25-48 | the choice is unique, and with distinct tiers independent of the list's order |
| Selection.ChosenTunnelIsHealthy | control-plane/internal/breaker/tunnelbreaker.go:132-139 | with the registry as its view, after any recordings and queries, selection picks only an up tunnel whose own probes end in fewer failures than the threshold |
| Selection.EligibleByOwnHistory | control-plane/internal/breaker/tunnelbreaker.go:132-139 | a tunnel is eligible if and only if it is up and no opening stands in its own outcomes |
| Selection.FailoverAgreesWithPrimary | control-plane/internal/routing/routing.go:184-197 | after any run of tier changes, with all tunnels eligible, failover picks the compiler's primary |
| Audit.MutationsAreAudited | control-plane/internal/api/handlers.go:142-153 | in every run the rows are the committed mutations that wrote one, in commit order, whatever wrote none is a delete, the log is the entries of all, a 2xx has exactly one and a 400 or 404 none |
| Audit.AuditIsAppendOnly | control-plane/internal/store/postgres.go:448-454 | the log and the history of any state are prefixes of those of every later one |
| History.EntriesAreSigned | control-plane/internal/api/handlers.go:123-153 | in every run each log entry names the actor and the operation of the valid request received for its transaction, and the id of the row as its last committed write before left it, or no row after a delete |
| History.LastWriteWins | control-plane/internal/store/postgres.go:72-86 | in every run a row is there if and only if the last committed operation that wrote its key is not a delete, and holds what that wrote |
| History.RowsAreReplayExactly | control-plane/internal/store/postgres.go:402-408 | in every run the rows are all committed mutations in commit order if and only if no row stands that a delete which had found nothing has overtaken |
| History.DeleteCanBeOvertaken | control-plane/internal/store/postgres.go:394-408 | for every key a run with two confirmed requests and ascending ids whose last entry deletes a row that is there |
| History.RowIdIsStable | control-plane/internal/store/postgres.go:102-107 | from any state of any run on, a row keeps its id until a delete that found it is committed |
| History.WaitsExactly | control-plane/internal/store/postgres.go:72-86 | in every run a statement waits if and only if it has a row to write that another transaction still open has written; a transaction that ended, in whatever way, keeps nobody waiting |
| History.IdsFollowAppends | sql/schema.sql:228-236 | in every run audit ids ascend in the order in which the audit rows are written |
| History.IdOrderIsCommitOrderExactly | control-plane/internal/store/postgres.go:174-176 | in every run id order is commit order if and only if transactions commit in the order in which they wrote their audit rows |
| History.IdOrderCanDiffer | control-plane/internal/store/postgres.go:174-176 | a run of two transactions whose ids and commits are in opposite order |
| Audit.Server.constructor | control-plane/internal/store/postgres.go:72-86 | an empty store |
| Audit.Server.Handle | control-plane/internal/api/handlers.go:183-235 | an invalid request changes nothing and gets 400; otherwise row and log change together or not at all, also when another transaction holds the row |
| Audit.Server.MutateWithAudit | control-plane/internal/api/handlers.go:142-153 | which status each fault gives, and that only a lost commit confirmation changes the store without a 2xx |
| EndToEnd.CompiledIncludeReadsBackExactly | control-plane/internal/routing/routing.go:202-313 | the include of any tables reads back as the wiring, one peer per enabled profile in name order and the fail-closed block if and only if the host overrides are words and the helper path does not get lost at its line end or start with `%` |
| EndToEnd.RenderedPeersExactly | control-plane/internal/routing/routing.go:202-313 | the peers read back from the text are, one by one, the enabled profiles in name order, each a parent that is never queried, at the host and port of the profile's own fields and under its own name |
| EndToEnd.EveryOkLineIsJustified | control-plane/cmd/acl-helper/main.go:84-122 | in every run, with no newline in a tag, an output line that Squid reads as allowed answers an input line whose host was routed to the answered tunnel, which a timely poll had proved up; what Squid reads is that tunnel if its name stands for itself |
| EndToEnd.EveryAllowIsServed | control-plane/internal/routing/routing.go:120-179 | in every run whose routes come from compiles, an allowed host was served through the answered profile by one of the compiled tables |
| EndToEnd.NothingLeavesUnproven | control-plane/cmd/acl-helper/main.go:1-8 | in every run, every base and after any helper consultations, what Squid lets out with `tun_up` found as its configuration says goes through a rendered peer, and its own Host header was allowed in the run on a tunnel that a timely poll had proved up |
| EndToEnd.CompiledTextLeavesNothingUnproven | control-plane/internal/routing/routing.go:120-179 | the same for the rendered text of any tables spliced into any base text that routes nothing: out only through the peer of an enabled profile, and only proven |
| EndToEnd.TagConfinesExactly | control-plane/cmd/acl-helper/main.go:1-8 | an admitted request is confined to its tag's peer if and only if no peer of another name is rendered |

## Left out

- HTTP servers and clients, TLS, authentication, metrics, tracing, server-sent events and event subscription: no verdict depends on them.
- Gluetun and probe requests: their results are observations that a run may choose freely.
- DTO decoding, validation details, listings and plain CRUD handlers: they would only add easy members; validity of a request is a parameter of `Audit.Server.Handle`.
- Environment parsing, except the time to live.
- The Dante text: the compiled routes are modelled, their rendering is not.
- JavaScript quoting in the PAC files: a file is modelled as its list of glob lines.
- The wording of the include's comments: they are arbitrary comment lines.
- Aliases with glob characters in them: the helper looks hosts up literally, and only the PAC files read aliases as globs.
- Redis' millisecond granularity and the round trips within one read.
- A status write that the server applies after the client has given up on it.
- Expiry.TtlSeconds: computed on exact numbers, while the source goes through `float64`; needs a positive interval, since the ticker panics on any other.
- Routing.PeerPortExactly: `peer_port` is a real number, so rounding and the overflow of huge `float64` values are not modelled.
- Breaker.Registry.Record: concurrent calls into one breaker are taken one after another.
- Audit.MutationsAreAudited: a transaction touches one row, named by its natural key, as tiers are; profiles, targets and rules are deleted by id, which is not modelled. Cascading deletes and foreign keys are not modelled, and the entry of a delete names its row through its operation.
- Access.RenderedTextFailsClosed: needs peer hosts that are words and a helper path that does not get lost at its line end or start with `%`; without that the text need not read back at all, as `Squid.IncludeReadsBackExactly` says.
- Access.AssembledReads: needs lines that end before the include; Squid reads an included file by itself, so a base line that goes on is not modelled.
- EndToEnd.EveryOkLineIsJustified: needs tags without newlines, the exact condition of `AclProtocol.OneReplyPerLineExactly`; without it replies and requests are out of step, as `AclProtocol.NewlineTagShiftsReplies` shows.
- External.TunUpIsTheHelpersAnswer: of the format codes only request headers are modelled, and no arguments of the acl; the base may not define `tun_up` or `vpn_route` itself.
- Liveness: that healthd keeps its schedule and that requests are answered in time; `Availability` says what follows if it does.
- Squid configuration macros, quoted values and conditionals.
