# NetworkProxy: a verified model of its byte-stream core

NetworkProxy is a Windows proxy that redirects connections to itself, cuts the byte stream into
messages, patches them and sends them on. This project models the parts of it that compute on bytes
and proves what they promise, alone and where they meet. `dafny verify dfyconfig.toml` checks it.

Text is modelled as `string`, one `char` for one byte, with `isspace` and `tolower` of the C locale;
the TLS parser and the packet rewriter work on numbers 0..255. An `unordered_map` is a `map` that is
visited in an arbitrary order. `recv` and `send` are oracles, the clock is an argument, and
`size_t` sums wrap at 64 bits.

| files | what they model |
|---|---|
| `Text.dfy` | library functions: leftmost search, `getline`, `stoul`/`stoull`, `to_string` |
| `Framing.dfy` | `TcpReassemblyBuffer` and draining it |
| `HttpHead.dfy`, `HttpFraming.dfy`, `HttpAdapter.dfy`, `HttpRoundTrip.dfy` | printing and reading heads, how printed messages are cut back, the HTTP adapter, how what it sends is read |
| `HttpRules.dfy` | what a rule sees of a request and of a response |
| `ProtocolDetector.dfy`, `SocketUtils.dfy` | protocol detection, `send_all` |
| `PumpModel.dfy`, `PumpRuns.dfy`, `Pump.dfy` | the pump as a state machine, whole runs of it, and the loop as a class |
| `Replace.dfy`, `Hex.dfy`, `RuleModel.dfy`, `RuleEngine.dfy`, `PatchEngine.dfy` | replace-all, the two hex decoders, rules, patching |
| `RuleDsl.dfy`, `RuleText.dfy`, `RuleLines.dfy` | the rule file loader, its grammar, its printer, and lines written by hand |
| `ClientHello.dfy` | server name extraction |
| `Octets.dfy` | bytes as numbers and 16-bit words |
| `FlowTable.dfy`, `Redirect.dfy` | the flow table and the packet redirect |
| `Connect.dfy` | CONNECT targets |
| `EndToEnd.dfy` | pump, adapter, fallback and a reassembling peer together |

Classes and methods follow the code that changes state; each is proved against a function of its
inputs or of its old state, and the lemmas prove what that function promises.

## What the proofs found

- The pump calls `recv` only on an empty buffer (src/transport/tcp_proxy_server.cpp:296). A read that
  ends inside an HTTP message therefore leaves the loop spinning for ever. `ExitsIffReadsAreWhole`
  says exactly when it exits: when every read that is handled as HTTP is a whole number of messages; with
  a socket that may fail, `ExitsIff` adds a failed send before that. On the read of `HalfAHeadSpins` it
  does not exit.
- The detector is asked about each read alone (src/transport/tcp_proxy_server.cpp:313). That fails in
  both directions: a method split over two reads is not recognised (`SplitMethodIsMissed`), and a read
  "GET " after a short unrecognised one is handled as HTTP (`LateMethodIsTaken`). `EveryReadIff` is the
  exact condition for the kind of every read to be that of the stream so far: the first read is
  recognised or has at least 32 bytes.
- The reassembly buffer looks for "content-length:" anywhere in the head
  (src/transport/tcp_reassembly_buffer.cpp:62), so an `X-Content-Length` header, a start line or a value
  that holds the text decides the length. `SelfFramingIffClean` gives the exact condition, and
  `MisframedOutcome` a payload and a rule for which the adapter sends such a message. `PatchedFramesIff`
  is the exact condition for the answers to one payload.
- `stoull` accepts a sign, and the 64-bit sum of line 40 wraps: `TakenIsSelfFramedIff` says that exactly
  the messages cut without a wrap are cut back, `ZeroFrameIff` when a message has length zero, and
  `content-length:-22` is such a case. Chunking independence holds all the same.
- The flush of more than 8192 bytes (src/transport/tcp_proxy_server.cpp:323) is unreachable
  (`FlushIsNeverTaken`).
- The IPv4 destination is written with `htonl` of a constant that is already in network order
  (src/capture/win_divert_capture.cpp:241), which on a little-endian host stores 1.0.0.127, not
  127.0.0.1 as the comment at line 56 says (`StoredAddress`). Redirected packets go to loopback exactly
  when they are IPv6 (`ReachesLoopbackIffIpv6`); one to 127.0.0.1 is sent away (`LoopbackPacketIsSentAway`).
- Printing and reading a patched message does not always give it back. The parser cuts the head off
  before the blank line, so a value printed on the last line loses a CR at its end (`TrailingCrExample`);
  a name with a colon is cut at that colon (`ColonExample`); a blank at the start of a value is skipped.
  `RoundTripIff` is the exact condition on the headers for all visiting orders, `PatchedRoundTripIff` the
  same for the answers of `apply_patch`.
- `stoul` accepts a minus as well: a rule port or a CONNECT port written -4294967295 is read as 1
  (`SpelledPort`, `SpelledAuthority`).
- A CONNECT port above 65535 is cut to 16 bits instead of being rejected (`AuthorityRoundTrip`).

## Model

| member | source | states |
|---|---|---|
| `Framing.TcpReassemblyBuffer.Append` | src/transport/tcp_reassembly_buffer.cpp:10-12 | appending puts the chunk after what is buffered and changes nothing else |
| `Framing.TcpReassemblyBuffer.TakeAll` | src/transport/tcp_reassembly_buffer.cpp:26-30 | everything buffered is handed out and the buffer is left empty |
| `Framing.TcpReassemblyBuffer.TryTakeHttpMessage` | src/transport/tcp_reassembly_buffer.cpp:32-49 | on success the message and the new buffer are the split `Take` makes of the old buffer; on failure the buffer is untouched |
| `Framing.Take` | src/transport/tcp_reassembly_buffer.cpp:32-49 | whatever is taken, message and rest together are the buffer: no byte is lost or invented |
| `Framing.ContentLength` | src/transport/tcp_reassembly_buffer.cpp:50-80 | every answer fits a 64-bit `size_t`; a missing or unreadable value is 0, with signs, blanks and overflow read as `stoull` does |
| `Framing.NoLengthIsZero` | src/transport/tcp_reassembly_buffer.cpp:64-73 | without the key, or without a line end behind it, the length is 0 |
| `Text.ParseSpelled` | src/transport/tcp_reassembly_buffer.cpp:74-79 | `stoull` and `stoul` on every text: blanks are skipped, one sign is taken, the digits are read and what follows is ignored; no digits or too large a number is a failure, and a minus wraps around |
| `Text.EveryTextIsSpelled` | src/transport/tcp_reassembly_buffer.cpp:74-79 | every text consists of such blanks, sign, digits and rest, so `ParseSpelled` says what every text is read as |
| `Text.SixBlanks` | src/rules/rule_engine.cpp:324-336 | exactly tab, line feed, vertical tab, form feed, carriage return and space are blanks |
| `Text.Alphabet` | src/rules/rule_engine.cpp:316-322 | exactly the twenty-six capitals become small letters |
| `HttpFraming.SpelledMessageIsTaken` | src/transport/tcp_reassembly_buffer.cpp:32-80 | whatever blanks, sign or text are written around the number of the first Content-Length line, the message taken is the head and that many bytes, the rest stays, and before they have arrived nothing is taken |
| `HttpFraming.SpacedLengthExample` | src/transport/tcp_reassembly_buffer.cpp:74-79 | a length with a trailing blank: the five bytes are the body of the message |
| `Framing.FrameShape` | src/transport/tcp_reassembly_buffer.cpp:32-48 | without wrap-around a message is complete exactly when header block plus declared body are buffered, and it is that many bytes |
| `Framing.TakeStable` | src/transport/tcp_reassembly_buffer.cpp:32-49 | a successful take stays the same take when more bytes follow |
| `Framing.DrainAppend` | src/transport/tcp_reassembly_buffer.cpp:10-49 | draining early and draining the leftover with later bytes gives the messages and leftover of draining all at once |
| `Framing.ChunkingIndependence` | src/transport/tcp_reassembly_buffer.cpp:10-49 | for every stream and every split into appends, the messages taken and the leftover are those of a single append; no hypothesis, a drain stops at a zero-length frame |
| `Framing.TakenIsSelfFramedIff` | src/transport/tcp_reassembly_buffer.cpp:32-49 | a message that was taken would be taken again as it is if and only if the sum of header length and Content-Length did not wrap at 64 bits |
| `Framing.PipelinedInAnyChunks` | src/transport/tcp_reassembly_buffer.cpp:10-49 | self-framed messages, pipelined and cut into arbitrary chunks, are taken one by one in order and nothing is left |
| `Framing.ZeroFrameIff` | src/transport/tcp_reassembly_buffer.cpp:40-47 | the front message has length zero if and only if head and announced length sum to exactly 2^64 |
| `Framing.ZeroFrameExists` | src/transport/tcp_reassembly_buffer.cpp:40-47 | a concrete header whose negative length wraps the 64-bit sum to a message of length zero |
| `Text.HasPrefixIgnoreCase` | src/protocol/http_protocol_adapter.cpp:16-30 | the character loop decides exactly whether the lower-cased front of the value is the lower-cased prefix |
| `HttpHead.SplitLines` | src/protocol/http_protocol_adapter.cpp:43-54 | the `getline` loop yields the newline-separated lines, one trailing CR off each, and no extra line after a trailing newline |
| `HttpHead.ParseHeaders` | src/protocol/http_protocol_adapter.cpp:56-74 | the loop computes the header map of the lines after the start index |
| `HttpHead.HeadersLookup` | src/protocol/http_protocol_adapter.cpp:56-74 | last write wins: a name has the value of its last line, cut at the first colon, leading blanks off |
| `HttpHead.HeadersComeFromLines` | src/protocol/http_protocol_adapter.cpp:56-74 | nothing is in the map that no line carries |
| `HttpHead.ParsedHeadersReadable` | src/protocol/http_protocol_adapter.cpp:43-74 | parsed names hold no colon, parsed values do not begin with a blank, and neither holds a line feed |
| `HttpHead.RebuildHeadFromModel` | src/protocol/http_protocol_adapter.cpp:182-202 | visiting the map in an arbitrary order, the loop prints start line, one line per header, and one Content-Length line when no name begins with Content-Length |
| `HttpHead.RebuildHeadersWithContentLength` | src/protocol/http_protocol_adapter.cpp:148-180 | every Content-Length line gets the body size, one is added if there is none, and the lines are joined by CR LF |
| `HttpHead.LinesOfTerminated` | src/protocol/http_protocol_adapter.cpp:43-54 | reading CR LF terminated lines gives the lines back, even lines that end in a bare CR |
| `HttpHead.LinesOfJoined` | src/protocol/http_protocol_adapter.cpp:43-54 | reading joined lines gives them back, except that an unterminated last line loses one trailing CR |
| `HttpHead.HeadRoundTrip` | src/protocol/http_protocol_adapter.cpp:56-74 | parsing the head that `rebuild_head_from_model` prints gives the same header map for every visiting order, with the names that begin with Content-Length collapsed to the body size |
| `HttpFraming.SecondPass` | src/protocol/http_protocol_adapter.cpp:148-180 | the second Content-Length pass changes no field line, and changes the start line exactly when that line itself reads as a Content-Length field of another size |
| `HttpFraming.PrintedSplits` | src/protocol/http_protocol_adapter.cpp:32-41 | splitting a printed message at the first blank line gives back exactly its head and its body |
| `HttpFraming.HeadEndAt` | src/transport/tcp_reassembly_buffer.cpp:33-36 | in printed lines the leftmost blank line is the end of the head, whatever the body holds |
| `HttpFraming.ContentLengthByLines` | src/transport/tcp_reassembly_buffer.cpp:50-80 | the search over the raw head equals a line-by-line reading: the first line that carries the key decides |
| `HttpFraming.FramedIffDeclared` | src/transport/tcp_reassembly_buffer.cpp:32-49 | a printed message is cut back exactly if and only if its lines declare the size of its body |
| `HttpFraming.PrintedIsSelfFramed` | src/protocol/http_protocol_adapter.cpp:182-202 | a clean start line and clean headers print to a message that frames itself, for every order and body |
| `HttpFraming.HiddenKeyBreaksFraming` | src/protocol/http_protocol_adapter.cpp:182-202 | otherwise some order and some body of at most one byte give a message that is cut wrongly |
| `HttpFraming.FramedForEveryOrderIff` | src/protocol/http_protocol_adapter.cpp:182-202 | a message with a given body frames itself for every visiting order if and only if no printed line announces another size than that of the body |
| `HttpFraming.SelfFramingIffClean` | src/protocol/http_protocol_adapter.cpp:148-202 | printing always yields self-framed messages if and only if the start line is rewritten or nothing printed as it stands holds "content-length:" |
| `HttpFraming.HiddenKeyExample` | src/transport/tcp_reassembly_buffer.cpp:62-66 | a concrete failure: for a printed message without body that has the header X-Content-Length: 5 the buffer waits for five more bytes |
| `HttpAdapter.GetHeaderValue` | src/protocol/http_protocol_adapter.cpp:76-84 | the value of whichever header with that name prefix is visited first, or the empty string when there is none |
| `HttpAdapter.Parse` | src/protocol/http_protocol_adapter.cpp:214-246 | splitting, line reading, the start-line tests and header parsing, with every early exit |
| `HttpAdapter.ParsedMessageParts` | src/protocol/http_protocol_adapter.cpp:32-116 | a parsed payload is exactly its head, the first blank line and its body; a response starts with HTTP/, and a request line is a method, a target and a rest, neither word holding a space |
| `HttpAdapter.ApplyPatch` | src/protocol/http_protocol_adapter.cpp:214-264 | a false answer leaves the payload alone; a true one replaces it by the printed patched message, the visiting orders of the maps being the only freedom |
| `HttpAdapter.BuildRuleContext` | src/protocol/http_protocol_adapter.cpp:118-146 | the assignments build the specified context |
| `HttpRules.RequestRuleActsIff` | src/protocol/http_protocol_adapter.cpp:86-146 | for every payload whose first line is two words and a rest, a rule that sets a new header acts exactly when its seven conditions hold of that method, that target (the path of the connection only when it is empty), and of kind, direction, host, process and port of the connection |
| `HttpRules.ResponseRuleActsIff` | src/protocol/http_protocol_adapter.cpp:118-146 | the same for every payload that begins with HTTP/: no method, and the path of the connection |
| `HttpRules.ConfiguredMarks` | src/patch/patch_engine.cpp:16-62 | without rules: when the answer is true, and that it prints the proxy header and the suffix of a request or of a response |
| `HttpRules.DemoRuleActs` | config/rules.dsl:33-39 | the demonstration rule on a POST to /api: the answer, for every host and port |
| `HttpAdapter.SentIsPrinted` | src/protocol/http_protocol_adapter.cpp:259-260 | what is sent is the printed head followed by a blank line and the body |
| `HttpAdapter.PatchedIsSelfFramed` | src/protocol/http_protocol_adapter.cpp:214-264 | every payload for which patching answered true is cut back by the reassembly buffer as exactly one message, if no line hides the key |
| `HttpAdapter.PatchedFramesIff` | src/protocol/http_protocol_adapter.cpp:214-264 | exactly when every answer of `apply_patch` to a payload is cut back as one message: the patched start line and headers announce no other size than that of the patched body |
| `HttpAdapter.PatchedStreamReframes` | src/protocol/http_protocol_adapter.cpp:214-264 | k patched payloads, pipelined and arriving in any chunks, come out as exactly those k payloads, nothing left |
| `HttpAdapter.MisframedOutcome` | src/protocol/http_protocol_adapter.cpp:214-264 | a self-framed request, a configuration and one rule for which `apply_patch` sends a message that the reassembly buffer does not take |
| `HttpRoundTrip.SentIsParsed` | src/protocol/http_protocol_adapter.cpp:214-260 | what the bytes sent are read as, whatever names and values they hold: the fields with one trailing CR gone from a value printed last, or no message when the start line was rewritten as a Content-Length field |
| `HttpRoundTrip.SentReadsBack` | src/protocol/http_protocol_adapter.cpp:214-260 | when names hold no colon and values no leading blank they are read as the printed message with its lengths collapsed, for every visiting order, up to that CR |
| `HttpRoundTrip.RoundTripIff` | src/protocol/http_protocol_adapter.cpp:182-260 | the printed message is read back for every visiting order if and only if the start line is no Content-Length field, no name has a colon, no value begins with a blank, and no value that may be printed last ends in CR |
| `HttpRoundTrip.PatchedReadsBack` | src/protocol/http_protocol_adapter.cpp:214-264 | what every true answer of `apply_patch` on any payload with any loaded rules is read as |
| `HttpRoundTrip.PatchedRoundTripIff` | src/protocol/http_protocol_adapter.cpp:214-264 | exactly when every answer of `apply_patch` to a payload is read as the patched message: the condition of `RoundTripIff` on the patched start line and headers |
| `HttpRoundTrip.SoundInputsRoundTrip` | src/protocol/http_protocol_adapter.cpp:214-264 | it holds for every payload whose headers, and all rules whose settings, are read back as they are also on a last line |
| `HttpRoundTrip.TrailingCrExample` | src/protocol/http_protocol_adapter.cpp:43-54 | a payload with a value that ends in CR, and an answer of `apply_patch` in which it is read without the CR |
| `HttpRoundTrip.ColonExample` | src/rules/rule_engine.cpp:153-162 | a rule that can be loaded, for a header name with a colon: the answer is read with another name and value |
| `HttpRoundTrip.ProxyHeaderOnce` | src/patch/patch_engine.cpp:23-29 | with only the proxy header configured, patching a patched payload answers false and leaves it unchanged |
| `ProtocolDetector.DetectStable` | src/protocol/protocol_detector.cpp:9-36 | a recognised protocol stays the same one on every longer stream |
| `ProtocolDetector.DetectProtocolKind` | src/protocol/protocol_detector.cpp:9-36 | the comparisons in their order give the specified kind |
| `ProtocolDetector.DetectIff` | src/protocol/protocol_detector.cpp:14-35 | HTTP is exactly one of eleven words and a space in front; TLS is exactly the bytes 22 and 3 in front of at least three |
| `ProtocolDetector.SettledIff` | src/protocol/protocol_detector.cpp:9-36 | the answer holds for every extension if and only if something is recognised or no signature can still be completed |
| `ProtocolDetector.NineBytesSettle` | src/transport/tcp_proxy_server.cpp:313-318 | from nine bytes on the answer cannot change, so deciding at 32 bytes loses nothing |
| `SocketUtils.TargetSocket.SendAll` | src/transport/socket_utils.cpp:17-29 | partial writes add up: the socket receives exactly a prefix of the data, all of it if and only if the call succeeds |
| `SocketUtils.DeliverAll` | src/transport/socket_utils.cpp:17-29 | if no single send fails, everything is delivered |
| `Pump.Pump.PatchAndSend` | src/transport/tcp_proxy_server.cpp:265-288 | the patched payload is sent and its delivery recorded; a failed send is what makes the pump return |
| `Pump.Pump.Iterate` | src/transport/tcp_proxy_server.cpp:295-341 | one turn of the loop takes the abstract state to its successor: receive only on an empty buffer, detect, then forward one message or everything |
| `Pump.Pump.Loop` | src/transport/tcp_proxy_server.cpp:295-346 | the loop over the real buffer and socket reaches the state the abstract run reaches |
| `PumpModel.Progress` | src/transport/tcp_proxy_server.cpp:295-342 | every iteration that does not exit consumes an event or shortens the buffer, unless the loop is stuck |
| `PumpModel.StuckStays` | src/transport/tcp_proxy_server.cpp:296-330 | in the stuck state an iteration reads, sends and drops nothing, and is stuck again |
| `PumpModel.ExitsIffNotStuck` | src/transport/tcp_proxy_server.cpp:295-342 | the loop exits after finitely many iterations if and only if it never gets stuck |
| `PumpModel.StepKeepsStream` | src/transport/tcp_proxy_server.cpp:295-342 | handed-over bytes, buffer and bytes still to come always add up to the same stream, and the target holds the patched image of what was handed over |
| `PumpRuns.StepKeepsLatch` | src/transport/tcp_proxy_server.cpp:313-318 | once decided the protocol kind never changes |
| `PumpRuns.LatchIsFinal` | src/transport/tcp_proxy_server.cpp:313-318 | the decision agrees with the detector on every extension of the bytes it was made on |
| `PumpRuns.EveryStateFromInit` | src/transport/tcp_proxy_server.cpp:295-342 | in every reachable state at most 8192 bytes are buffered, the stream is conserved, the target holds the patched image of what was handed over, and the loop is left with an empty buffer |
| `PumpRuns.FlushIsNeverTaken` | src/transport/tcp_proxy_server.cpp:320-330 | in every iteration of every run at most 8192 bytes are buffered where line 323 tests it, so the flush is never taken |
| `PumpRuns.VerbatimDelivery` | src/transport/tcp_proxy_server.cpp:260-348 | with patches that change nothing, a run that ends delivers the source byte for byte |
| `PumpRuns.AllWholeIff` | src/transport/tcp_proxy_server.cpp:320-330 | the recursive "every HTTP read is whole" is a statement about each single read |
| `PumpRuns.ExitsIff` | src/transport/tcp_proxy_server.cpp:295-342 | the exact condition for any socket: the endless loop exits if and only if every read handled as HTTP is a whole number of messages, or a send fails of what is handed over up to the end of the first read that is not |
| `PumpRuns.ExitsIffReadsAreWhole` | src/transport/tcp_proxy_server.cpp:295-342 | when no send fails, the endless loop exits if and only if every read handled as HTTP is a whole number of messages |
| `PumpRuns.HalfAHeadSpins` | src/transport/tcp_proxy_server.cpp:295-342 | a concrete first read after which, whatever follows, the loop runs for ever and sends nothing |
| `PumpRuns.HandedOverReadByRead` | src/transport/tcp_proxy_server.cpp:295-346 | a run ends normally exactly when the HTTP reads are whole and no send fails, and then it has handed over the messages of the HTTP reads and the other reads as they came, in order |
| `PumpRuns.TargetReframes` | src/transport/tcp_proxy_server.cpp:320-336 | if every patched message frames itself, a peer reassembling what the target received takes exactly the patched messages |
| `PumpRuns.TargetTakesPrefix` | src/transport/tcp_proxy_server.cpp:265-346 | at any moment of any run, also after a failed send, what the peer has taken is a prefix of the patched messages |
| `PumpRuns.SecondReadIff` | src/transport/tcp_proxy_server.cpp:313-318 | for every non-empty second read its kind is that of both reads together if and only if the first read is recognised or has at least 32 bytes |
| `PumpRuns.EveryReadIff` | src/transport/tcp_proxy_server.cpp:313-318 | the same for any number of later reads: each is handled under the kind of all bytes received so far, if and only if the first read decides |
| `PumpRuns.LateMethodIsTaken` | src/transport/tcp_proxy_server.cpp:313-318 | after any short unrecognised read, a read "GET " is handled as HTTP although the stream does not begin with a method |
| `PumpRuns.SplitMethodIsMissed` | src/transport/tcp_proxy_server.cpp:313-318 | a concrete limit the other way: a request whose method is split over two reads is recognised by neither |
| `EndToEnd.Patch` | src/transport/tcp_proxy_server.cpp:277-285 | adapter first, transport patch when no adapter changed anything |
| `EndToEnd.StructuredRuleActsIff` | src/transport/tcp_proxy_server.cpp:271-277 | through the pump a rule sees http, the direction, host and port of the connection, and the method and target of the first line; no process |
| `EndToEnd.FallbackRuleActsIff` | src/transport/tcp_proxy_server.cpp:278-285 | on bytes a rule sees tcp, the direction, host and port; no method, path or process |
| `EndToEnd.SmokeRules` | config/rules_packet_smoke.dsl:1-13 | an inbound rule leaves an outbound payload alone, and an outbound rule patches it |
| `EndToEnd.LoadedRulesAreLfFree` | src/rules/rule_engine.cpp:31-174 | no rule file, not even a faulty one, leads to a header with a line feed in it |
| `EndToEnd.PipelineKeepsEmpty` | src/transport/tcp_proxy_server.cpp:265-288 | the real patch pipeline makes nothing out of an empty payload |
| `EndToEnd.FallbackIsInert` | src/patch/patch_engine.cpp:64-107 | with the configured stages off and every rule either without text and hex pattern or meant for another protocol than tcp, the transport patch changes no payload |
| `EndToEnd.SentMessageIsSelfFramed` | src/transport/tcp_proxy_server.cpp:265-288 | a self-framed clean message stays self-framed when it was patched, and when it was passed on and the transport patch leaves it alone |
| `EndToEnd.PeerSeesPatchedMessages` | src/transport/tcp_proxy_server.cpp:260-348 | end to end: whole clean HTTP reads, the first one recognised, make the pump exit, and the peer takes exactly the patched messages in any chunking; the transport patch is restricted only on messages the adapter leaves alone |
| `Replace.SplitIsLeftmost` | src/patch/patch_engine.cpp:163-177 | cutting at successive matches is a leftmost, non-overlapping split: joining gives the text back, every cut is the first possible, none is left |
| `Replace.SplitUnique` | src/patch/patch_engine.cpp:163-177 | there is only one such split |
| `Replace.ReplaceAllInPlace` | src/rules/rule_engine.cpp:300-314 | the in-place loop computes the join of that split by the replacement and counts the cuts, also when the replacement contains the pattern |
| `Replace.ReplaceLength` | src/patch/patch_engine.cpp:163-177 | output length plus count times pattern length is input length plus count times replacement length |
| `Replace.NoOccurrence` | src/patch/patch_engine.cpp:163-177 | the count is 0 exactly when the pattern is empty or absent, and then the text is unchanged |
| `Replace.ReplaceBySelf` | src/patch/patch_engine.cpp:163-177 | replacing a pattern by itself changes nothing |
| `Hex.DecodeForRules` | src/rules/rule_engine.cpp:360-406 | the flag-and-out-parameter decoder computes the shared decoding |
| `Hex.DecodeForPatches` | src/patch/patch_engine.cpp:109-161 | the optional-result decoder with its separate normalisation computes the shared decoding |
| `Hex.DecodersAgree` | src/rules/rule_engine.cpp:360-406 | on every text the two decoders accept together and return the same bytes |
| `Hex.DecodeIffRenders` | src/patch/patch_engine.cpp:109-161 | decoding yields given bytes if and only if the text spells them: two digits a byte, either case, separators anywhere, optional 0x |
| `Hex.SeparatorAnywhere` | src/patch/patch_engine.cpp:145-154 | a blank or dash inserted anywhere makes no difference |
| `Hex.DecodedCharacters` | src/rules/rule_engine.cpp:363-368 | what decodes holds nothing but blanks, dashes, hex digits and the x of a prefix |
| `Hex.EncodeDecode` | src/patch/patch_engine.cpp:109-143 | every byte string has a rendering, with and without prefix, that decodes to it |
| `Text.Lowered` | src/rules/rule_engine.cpp:316-322 | the loop lowers every character and keeps the length |
| `Text.Trimmed` | src/rules/rule_engine.cpp:324-336 | the two loops leave the text without leading and trailing blanks |
| `RuleEngine.Engine.ApplyTransport` | src/rules/rule_engine.cpp:176-200 | the loop is the in-order fold of the matching rules, text stage then hex stage each |
| `RuleEngine.Engine.MatchesRule` | src/rules/rule_engine.cpp:262-298 | the comparisons with their early returns decide matching |
| `RuleModel.ContradictedRuleIsSkipped` | src/rules/rule_engine.cpp:262-298 | a rule one of whose seven conditions contradicts the context takes no part, wherever it stands: every payload and every message come out as without it |
| `RuleModel.FulfilledRuleActs` | src/rules/rule_engine.cpp:176-256 | a rule whose seven conditions hold acts after those in front of it: text, then bytes on a payload; headers, then body text, then text on a message; with the exact change flag |
| `RuleEngine.Engine.ApplyHttp` | src/rules/rule_engine.cpp:202-256 | the loop is the in-order fold of the matching rules over headers and body, for requests and responses alike |
| `RuleEngine.Engine.ApplyHeaderSet` | src/rules/rule_engine.cpp:210-216 | for every visiting order of the settings: the same headers, and the flag set exactly when some setting was missing or different |
| `RuleModel.TransportUnchanged` | src/rules/rule_engine.cpp:176-200 | no change reported means the payload is unchanged |
| `RuleModel.HttpUnchanged` | src/rules/rule_engine.cpp:202-256 | no change reported means headers and body are unchanged |
| `PatchEngine.Engine.SetRuleEngine` | src/patch/patch_engine.cpp:12-14 | the active rules are those of the given engine, or none |
| `PatchEngine.Engine.ApplyTransportPatch` | src/patch/patch_engine.cpp:64-107 | the fold of the matching rules under the given protocol and direction, then the configured text stage, then the hex stage |
| `PatchEngine.TextBetweenPieces` | src/patch/patch_engine.cpp:79-93 | outbound payloads have the outbound text between their pieces replaced, all others the inbound text |
| `PatchEngine.BytesBetweenPieces` | src/patch/patch_engine.cpp:95-104 | then the bytes that the outbound, or else the inbound, hex text spells are replaced in the result |
| `PatchEngine.Engine.ApplyRequestPatch` | src/patch/patch_engine.cpp:16-38 | rules when there is a context, proxy header, request suffix on a non-empty body |
| `PatchEngine.Engine.ApplyResponsePatch` | src/patch/patch_engine.cpp:40-62 | the same with the response suffix |
| `PatchEngine.TransportPipelineUnchanged` | src/patch/patch_engine.cpp:64-107 | a false answer means the payload is untouched by every stage |
| `PatchEngine.HttpPipelineUnchanged` | src/patch/patch_engine.cpp:16-62 | a false answer means headers and body are untouched |
| `PatchEngine.HttpPipelineEntries` | src/patch/patch_engine.cpp:16-62 | every header after patching was there before, was set by a rule, or is the proxy header |
| `RuleEngine.Engine.LoadFromFile` | src/rules/rule_engine.cpp:31-174 | the loop over the lines, with its early returns, loads what the line-by-line specification loads and keeps the finished rules after an error |
| `RuleEngine.Engine.SetKeyValue` | src/rules/rule_engine.cpp:95-165 | the comparisons of the key and their assignments do what the table of fields says, with the same errors |
| `RuleText.KeyTable` | src/rules/rule_engine.cpp:95-165 | the field of a key is the one named by the first comparison that succeeds |
| `RuleLines.WrittenKeyLoads` | src/rules/rule_engine.cpp:86-162 | a key line with any blanks performs the assignment of exactly the value that is written: bare, between double or between single quotes; other quotes are kept |
| `RuleLines.WrittenRuleLoads` | src/rules/rule_engine.cpp:53-77 | a rule line opens the rule of exactly the name that is written, in the same three ways; an empty name is refused |
| `RuleLines.RefusedOutside` | src/rules/rule_engine.cpp:53-66 | outside a block, which lines are refused with which error |
| `RuleLines.RefusedInside` | src/rules/rule_engine.cpp:86-165 | inside a block, which lines are refused with which error and key |
| `RuleLines.WrittenBlockLoads` | src/rules/rule_engine.cpp:31-174 | a block written by hand loads as the rule that its assignments make |
| `RuleLines.DemoRuleLoads` | config/rules.dsl:33-39 | the demonstration block loads as the rule it says |
| `RuleDsl.SpelledPort` | src/rules/rule_engine.cpp:346-358 | what a port text is read as, whatever is written around the digits: at most 65535, and a minus wraps around at 32 bits |
| `RuleDsl.LoopIsBlockParser` | src/rules/rule_engine.cpp:79-166 | the in-rule state of the loop is a recursive parser of one block |
| `RuleDsl.LoopIsGrammar` | src/rules/rule_engine.cpp:45-171 | the loop with its flag parses exactly the recursive grammar of blank lines and rule blocks, with the same errors and line numbers |
| `RuleDsl.BlockIsAssignments` | src/rules/rule_engine.cpp:79-166 | a block of arbitrary lines parses if and only if its lines have block form and every value can be stored, and then to the rule that its assignments make in order |
| `RuleDsl.LastWriteWins` | src/rules/rule_engine.cpp:79-166 | in every parsed block each of the fourteen kinds of field ends with its last assignment, other fields and the name keep what they had |
| `RuleText.LayoutIsIrrelevant` | src/rules/rule_engine.cpp:45-51 | any run of blanks and tabs before or after a line, and a comment behind it, never change what the line does |
| `RuleText.KeyLineLoads` | src/rules/rule_engine.cpp:86-162 | a printed key line performs exactly its assignment |
| `RuleText.PrintThenLoad` | src/rules/rule_engine.cpp:31-174 | printable rules, printed with their header settings in any order, load back as themselves |
| `RuleText.LoadedArePrintable` | src/rules/rule_engine.cpp:31-174 | every rule that was ever loaded is printable, also from a file with errors |
| `RuleText.RoundTripIffPrintable` | src/rules/rule_engine.cpp:31-174 | rules survive printing and loading if and only if they are printable |
| `RuleText.ReloadIsStable` | src/rules/rule_engine.cpp:31-174 | loading, printing and loading again gives the same rules for every file |
| `ClientHello.FindExtensions` | src/tls/https_mitm_proxy.cpp:92-152 | the straight-line part finds the clamped extension block, reading only inside the input |
| `ClientHello.ReadNames` | src/tls/https_mitm_proxy.cpp:172-186 | the inner loop reads the name list: an answer, a malformed list, or nothing |
| `ClientHello.TryExtractSni` | src/tls/https_mitm_proxy.cpp:89-193 | both loops move forward and read only inside the input, on arbitrary bytes, and compute the specified answer |
| `ClientHello.ExtractedNameIsSound` | src/tls/https_mitm_proxy.cpp:153-192 | an extracted name is a non-empty slice of the input: the first host_name of a type-0 extension on the chain, preceded by type 0 and its own length |
| `ClientHello.SerializedHelloReadBack` | src/tls/https_mitm_proxy.cpp:89-193 | from every well-formed ClientHello, followed by anything, exactly the first host_name is extracted, and nothing when there is none |
| `FlowTable.Table.RememberMapping` | src/capture/flow_table.cpp:15-30 | the mapping is stored, survives its own prune, and after a prune every entry is live |
| `FlowTable.Table.TryGetUpstream` | src/capture/flow_table.cpp:32-52 | a live entry is returned and refreshed, an expired one dropped |
| `FlowTable.Table.PruneExpired` | src/capture/flow_table.cpp:54-63 | one pass in an arbitrary order leaves exactly the live entries |
| `FlowTable.LookupKeepsPromise` | src/capture/flow_table.cpp:15-63 | for every history with ordered times and every pruning policy, a lookup returns the last remembered destination exactly when no gap between successive touches exceeds 120000 ms |
| `FlowTable.TwoMinutes` | src/capture/flow_table.cpp:32-52 | what was remembered once is answered up to 120000 ms later and no longer |
| `FlowTable.PrunedAbove4096` | src/capture/flow_table.cpp:24-30 | nothing is dropped up to 4096 entries; above, exactly the entries older than 120000 ms are |
| `FlowTable.PruningIsUnobservable` | src/capture/flow_table.cpp:27-29 | pruning above 4096 entries and never pruning answer every lookup alike |
| `Redirect.RewritePacketToLocalProxy` | src/capture/win_divert_capture.cpp:202-322 | in place: a refused packet and the table are untouched; an accepted one gets the listen port and loopback bytes, and its flow is remembered |
| `Redirect.Ipv4ByBytes` | src/capture/win_divert_capture.cpp:209-270 | on the bytes of an IPv4 packet: exactly which are redirected, TCP to the TCP port and UDP to the UDP port, and the bytes written |
| `Redirect.Ipv6ByBytes` | src/capture/win_divert_capture.cpp:272-319 | the same for IPv6 |
| `Redirect.OthersByBytes` | src/capture/win_divert_capture.cpp:202-207 | a packet of another IP version, or none, is refused |
| `Redirect.FlowByBytes` | src/capture/win_divert_capture.cpp:231-238 | the flow remembered is protocol, source address and source port off the bytes, its destination the address and port that are overwritten |
| `Redirect.UdpExample` | src/capture/win_divert_capture.cpp:250-263 | a concrete UDP packet goes to the UDP port |
| `Redirect.Ipv6Example` | src/capture/win_divert_capture.cpp:280-297 | a concrete TCP packet over IPv6 goes to the TCP port of ::1 |
| `Redirect.OnlyDestinationChanges` | src/capture/win_divert_capture.cpp:240-241 | only destination port and destination address bytes change, for any header length, IPv4 or IPv6 |
| `Redirect.SecondRewriteDoesNothing` | src/capture/win_divert_capture.cpp:221-223 | a rewritten packet is refused |
| `Redirect.RestoreUndoesRewrite` | src/capture/win_divert_capture.cpp:231-241 | writing the original destination back restores the packet byte for byte |
| `Redirect.StoredAddress` | src/capture/win_divert_capture.cpp:56-57 | the constant is 127.0.0.1 in memory already; after `htonl` the bytes stored are 1.0.0.127 |
| `Redirect.ReachesLoopbackIffIpv6` | src/capture/win_divert_capture.cpp:239-315 | a redirected packet goes to a loopback address if and only if it is IPv6 |
| `Redirect.LoopbackPacketIsSentAway` | src/capture/win_divert_capture.cpp:221-241 | a concrete packet to 127.0.0.1 that passes the guard and is sent to 1.0.0.127 |
| `Redirect.RedirectIsInvertible` | src/capture/win_divert_capture.cpp:238-241 | over histories: after any ordered operations on the table in which no later remember gives the flow another destination, the lookup for the rewritten packet answers if and only if the flow was never idle too long, and its answer restores the original packet |
| `Connect.AuthorityRoundTrip` | src/transport/tcp_proxy_server.cpp:68-84 | a host, colons included, and a printed number are read back; the number is cut to 16 bits, and rejected above 32 bits |
| `Connect.SpelledAuthority` | src/transport/tcp_proxy_server.cpp:68-84 | whatever is written around the digits behind the last colon: a number above 32 bits, no digits or an empty host is refused, any other number is cut to 16 bits |
| `Connect.RefusedRequests` | src/transport/tcp_proxy_server.cpp:50-68 | no line end, another method, or an empty target: refused |
| `Connect.TargetIsFound` | src/transport/tcp_proxy_server.cpp:50-68 | whatever case the method has and whatever follows, the target of the first line reaches the authority parser |
| `Connect.ParsedConnectShape` | src/transport/tcp_proxy_server.cpp:50-68 | any accepted request begins with the method in some case, an authority without spaces and a space, before the first CR LF |
| `Connect.ParsedAuthorityShape` | src/transport/tcp_proxy_server.cpp:69-84 | an accepted authority is a host without colon, or a non-empty host, its last colon and a readable number |
| `Connect.ConnectRoundTrip` | src/transport/tcp_proxy_server.cpp:50-85 | a CONNECT line in authority-form gives back host and port; without any colon the port is 443 |

## Left out

- Sockets, `accept`, `connect`, address resolution, timeouts, threads and shutdown: `recv` and `send` appear only as oracles.
- UDP proxying, the Windows Filtering Platform files, WinDivert loading and its receive loop: API calls around flags.
- OpenSSL processes, certificates and TLS sessions: foreign programs, files and keys.
- The plaintext test mode of `patch_and_send` (src/transport/tcp_proxy_server.cpp:266-269): it would add a second, similar patch function.
- Configuration parsing, logging and the application shell: the configuration is an arbitrary record.
- Error message texts of the rule loader: an error is its kind, its line number and, for an unknown key, the key.
- The status code of a response: the original parses it and never uses it.
- Text-mode translation of line ends when a rule file is opened: the model starts from the characters that `getline` sees.
- `RuleEngine.Engine.ApplyHttp`: requests and responses share one method, because the two loops of the original are the same.
- `Replace.ReplaceAllInPlace`: the two identical loops of the original are one method, with the mutated string as input and result.
- `FlowTable.LookupKeepsPromise`: takes times that do not go back in lock order as a hypothesis, because the clock is read before the lock.
- `Redirect.RedirectIsInvertible`: takes the text form of addresses to be injective, `InetNtop` being outside the model.
- `HttpAdapter.PatchedIsSelfFramed`: says nothing about payloads changed by the unstructured fallback, which does not correct Content-Length.
- Chunked transfer coding, IPv6 extension headers, fragments and checksums: the original does not handle them here.
- Payloads of two gigabytes and more, whose size `send_all` would truncate to a 32-bit `int`.
- Memory sharing between strings, hashing, the mutex.
