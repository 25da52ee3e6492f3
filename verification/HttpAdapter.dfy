/** The HTTP protocol adapter as a whole: parse, patch, print (src/protocol/http_protocol_adapter.cpp). */
module HttpAdapter {
  import opened Text
  import opened RuleModel
  import opened HttpHead
  import opened HttpFraming
  import opened Framing
  import opened ProtocolDetector
  import PatchEngine
  import Replace

  datatype ProtocolContext = ProtocolContext(
    kind: ProtocolKind, direction: string, host: string, path: string, remotePort: Port, processName: string)

  datatype Message =
    | Request(startLine: string, headers: HeaderMap, body: string, verb: string, target: string)
    | Response(startLine: string, headers: HeaderMap, body: string)

  /** `split_http_message`, `split_lines`, the start-line parsers and `parse_headers`. */
  function ParseMessage(payload: string): Option<Message> {
    match Find(payload, HEAD_END, 0)
    case None => None
    case Some(h) => ParseParts(LinesOf(payload[..h]), payload[h + 4..])
  }

  function ParseParts(lines: seq<string>, body: string): Option<Message> {
    if lines == [] then None
    else if StartsWithIgnoreCase(lines[0], "HTTP/") then
      Some(Response(lines[0], HeadersOf(lines[1..]), body))
    else
      match Find(lines[0], " ", 0)
      case None => None
      case Some(i) =>
        match Find(lines[0], " ", i + 1)
        case None => None
        case Some(j) => Some(Request(lines[0], HeadersOf(lines[1..]), body, lines[0][..i], lines[0][i + 1..j]))
  }

  /** `get_header_value(headers, "Host")`: the value of whichever header whose name begins with Host is
      visited first. */
  ghost predicate HostValue(headers: HeaderMap, value: string) {
    if exists name | name in headers :: StartsWithIgnoreCase(name, "Host")
    then exists name | name in headers :: StartsWithIgnoreCase(name, "Host") && headers[name] == value
    else value == ""
  }

  ghost predicate HostFor(context: ProtocolContext, headers: HeaderMap, host: string) {
    if context.host != "" then host == context.host else HostValue(headers, host)
  }

  /** `build_rule_context`. */
  function RuleContext(context: ProtocolContext, m: Message, host: string): MatchContext {
    MatchContext(
      match context.kind { case Http => "http" case Https => "https" case Unknown => "unknown" },
      context.direction, host,
      if m.Request? then m.verb else "",
      if m.Request? && m.target != "" then m.target else context.path,
      context.processName, context.remotePort)
  }

  function PatchMessage(c: PatchEngine.Config, rules: seq<Rule>, context: ProtocolContext, m: Message, host: string)
    : HttpModel
  {
    PatchEngine.HttpPipeline(c, rules, Some(RuleContext(context, m, host)),
      if m.Request? then PatchEngine.REQUEST_SUFFIX else PatchEngine.RESPONSE_SUFFIX,
      HttpModel(m.headers, m.body, false))
  }

  /** What `apply_patch` sends: the printed head, once more through the Content-Length pass. */
  function Sent(startLine: string, order: seq<string>, headers: HeaderMap, body: string): string
    requires forall i | 0 <= i < |order| :: order[i] in headers
  {
    Joined(WithLength(LinesOf(Terminated([startLine] + FieldLines(order, headers, |body|))), |body|)) + HEAD_END + body
  }

  /** What `apply_patch` may answer when it finds this host; the visiting order of the headers is free. */
  ghost predicate Answer(c: PatchEngine.Config, rules: seq<Rule>, context: ProtocolContext, payload: string,
                         m: Message, host: string, changed: bool, result: string) {
    var p := PatchMessage(c, rules, context, m, host);
    && changed == p.changed
    && (!changed ==> result == payload)
    && (changed ==>
          exists order | IsOrder(order, p.headers) :: result == Sent(m.startLine, order, p.headers, p.body))
  }

  /** Everything `apply_patch` may answer; the visiting orders of the maps are the only freedom. */
  ghost predicate Outcome(c: PatchEngine.Config, rules: seq<Rule>, context: ProtocolContext, payload: string,
                          changed: bool, result: string) {
    match ParseMessage(payload)
    case None => !changed && result == payload
    case Some(m) =>
      exists host | HostFor(context, m.headers, host) :: Answer(c, rules, context, payload, m, host, changed, result)
  }

  method GetHeaderValue(headers: HeaderMap, prefix: string) returns (value: string)
    ensures if exists name | name in headers :: StartsWithIgnoreCase(name, prefix)
            then exists name | name in headers :: StartsWithIgnoreCase(name, prefix) && headers[name] == value
            else value == ""
  {
    hide StartsWithIgnoreCase;
    var left := headers.Keys;
    while left != {}
      invariant left <= headers.Keys
      invariant forall name | name in headers.Keys - left :: !StartsWithIgnoreCase(name, prefix)
      decreases left
    {
      var name :| name in left;
      var found := HasPrefixIgnoreCase(name, prefix);
      if found {
        return headers[name];
      }
      left := left - {name};
    }
    return "";
  }

  /** `build_rule_context`, once the host is known. */
  method BuildRuleContext(context: ProtocolContext, m: Message, host: string) returns (r: MatchContext)
    ensures r == RuleContext(context, m, host)
  {
    var protocol := "unknown";
    if context.kind == Http {
      protocol := "http";
    } else if context.kind == Https {
      protocol := "https";
    }
    r := MatchContext(protocol, context.direction, host, "", context.path, context.processName, context.remotePort);
    if m.Request? {
      r := r.(verb := m.verb);
      if m.target != "" {
        r := r.(path := m.target);
      }
    }
  }

  /** The parsing half of `apply_patch`. */
  method Parse(payload: string) returns (m: Option<Message>)
    ensures m == ParseMessage(payload)
  {
    hide Find, LinesOf, HeadersOf, StartsWithIgnoreCase;
    var delimiter := Find(payload, HEAD_END, 0);
    if delimiter.None? {
      return None;
    }
    var head, body := payload[..delimiter.value], payload[delimiter.value + 4..];
    var lines := SplitLines(head);
    if lines == [] {
      return None;
    }
    var isResponse := HasPrefixIgnoreCase(lines[0], "HTTP/");
    if isResponse {
      var headers := ParseHeaders(lines, 1);
      return Some(Response(lines[0], headers, body));
    }
    var first := Find(lines[0], " ", 0);
    if first.None? {
      return None;
    }
    var second := Find(lines[0], " ", first.value + 1);
    if second.None? {
      return None;
    }
    var headers := ParseHeaders(lines, 1);
    return Some(Request(lines[0], headers, body, lines[0][..first.value], lines[0][first.value + 1..second.value]));
  }

  /** The printing half: `rebuild_head_from_model`, then the Content-Length pass. */
  method Print(startLine: string, headers: HeaderMap, body: string) returns (payload: string, ghost order: seq<string>)
    ensures IsOrder(order, headers) && payload == Sent(startLine, order, headers, body)
    ensures exists o | IsOrder(o, headers) :: payload == Sent(startLine, o, headers, body)
  {
    hide LinesOf, WithLength, Terminated, Joined, FieldLines;
    var head;
    head, order := RebuildHeadFromModel(startLine, headers, |body|);
    var rebuilt := RebuildHeadersWithContentLength(head, |body|);
    payload := rebuilt + HEAD_END + body;
  }

  /** `HttpProtocolAdapter::apply_patch`. */
  method ApplyPatch(payload: string, context: ProtocolContext, engine: PatchEngine.Engine)
    returns (changed: bool, result: string)
    ensures Outcome(engine.config, engine.ActiveRules(), context, payload, changed, result)
  {
    hide ParseMessage, PatchEngine.HttpPipeline, Sent, HostValue;
    changed, result := false, payload;
    var parsed := Parse(payload);
    if parsed.None? {
      return;
    }
    var m := parsed.value;
    var host := context.host;
    if host == "" {
      host := GetHeaderValue(m.headers, "Host");
      HostFound(m.headers, host);
    }
    assert HostFor(context, m.headers, host);
    var matchContext := BuildRuleContext(context, m, host);
    var headers, body;
    if m.Response? {
      headers, body, changed := engine.ApplyResponsePatch(m.headers, m.body, Some(matchContext));
    } else {
      headers, body, changed := engine.ApplyRequestPatch(m.headers, m.body, Some(matchContext));
    }
    ghost var p := PatchMessage(engine.config, engine.ActiveRules(), context, m, host);
    assert p == HttpModel(headers, body, changed);
    if changed {
      ghost var order;
      result, order := Print(m.startLine, headers, body);
    }
  }

  lemma HostFound(headers: HeaderMap, value: string)
    requires if exists name | name in headers :: StartsWithIgnoreCase(name, "Host")
             then exists name | name in headers :: StartsWithIgnoreCase(name, "Host") && headers[name] == value
             else value == ""
    ensures HostValue(headers, value)
  {
  }

  // ---------- what parsing finds ----------

  /** A parsed message is its head, the first blank line, its body; a request line is two words and a rest. */
  lemma ParsedMessageParts(payload: string) returns (head: string, rest: string)
    requires ParseMessage(payload).Some?
    ensures var m := ParseMessage(payload).value;
            && payload == head + HEAD_END + m.body && AbsentIn(payload, HEAD_END, 0, |head|)
            && LinesOf(head) != [] && m.startLine == LinesOf(head)[0] && m.headers == HeadersOf(LinesOf(head)[1..])
            && (m.Response? <==> StartsWithIgnoreCase(m.startLine, "HTTP/"))
            && (m.Request? ==> m.startLine == m.verb + " " + m.target + " " + rest
                               && ' ' !in m.verb && ' ' !in m.target)
  {
    hide Find, At, LinesOf, HeadersOf, StartsWithIgnoreCase;
    var h := Find(payload, HEAD_END, 0).value;
    FindLeftmost(payload, HEAD_END, 0);
    head := payload[..h];
    AtSlice(payload, HEAD_END, h);
    var m := ParseMessage(payload).value;
    assert payload == head + HEAD_END + m.body;
    rest := "";
    if m.Request? {
      rest := RequestLineParts(m.startLine);
    }
  }

  lemma RequestLineParts(line: string) returns (rest: string)
    requires Find(line, " ", 0).Some? && Find(line, " ", Find(line, " ", 0).value + 1).Some?
    ensures var i := Find(line, " ", 0).value;
            var j := Find(line, " ", i + 1).value;
            line == line[..i] + " " + line[i + 1..j] + " " + rest && ' ' !in line[..i] && ' ' !in line[i + 1..j]
  {
    hide Find, At;
    var i := Find(line, " ", 0).value;
    var j := Find(line, " ", i + 1).value;
    FindLeftmost(line, " ", 0);
    FindLeftmost(line, " ", i + 1);
    AtChar(line, ' ', i);
    AtChar(line, ' ', j);
    forall k: nat | k < i ensures line[..i][k] != ' ' { AtChar(line, ' ', k); }
    var target := line[i + 1..j];
    forall k: nat | k < |target| ensures target[k] != ' ' { AtChar(line, ' ', i + 1 + k); }
    rest := line[j + 1..];
  }

  // ---------- where printed headers come from ----------

  /** Rules whose header names and values hold no line feed; every loaded rule file yields such rules. */
  ghost predicate RulesLfFree(rules: seq<Rule>) {
    forall i | 0 <= i < |rules| :: EntriesLfFree(rules[i].action.headerSet)
  }

  /** No rule sets a header whose line hides the Content-Length key. */
  ghost predicate RulesHarmless(rules: seq<Rule>) {
    forall i | 0 <= i < |rules| :: AllEntries(rules[i].action.headerSet, Harmless)
  }

  lemma ParsedIsLfFree(payload: string)
    requires ParseMessage(payload).Some?
    ensures var m := ParseMessage(payload).value;
            NoLf(m.startLine) && EntriesLfFree(m.headers) && Readable(m.headers)
  {
    hide LinesOf, HeadersOf, Find;
    var h := Find(payload, HEAD_END, 0).value;
    var lines := LinesOf(payload[..h]);
    LinesOfHaveNoLf(payload[..h]);
    ParsedHeadersReadable(lines[1..]);
  }

  lemma PatchedIsLfFree(c: PatchEngine.Config, rules: seq<Rule>, context: ProtocolContext, m: Message, host: string)
    requires EntriesLfFree(m.headers) && RulesLfFree(rules)
    ensures EntriesLfFree(PatchMessage(c, rules, context, m, host).headers)
  {
    var lfFree := (name: string, value: string) => NoLf(name) && NoLf(value);
    assert AllEntries(m.headers, lfFree);
    assert forall i | 0 <= i < |rules| :: AllEntries(rules[i].action.headerSet, lfFree);
    hide PatchEngine.HttpPipeline;
    PatchEngine.HttpPipelineEntries(c, rules, Some(RuleContext(context, m, host)),
      if m.Request? then PatchEngine.REQUEST_SUFFIX else PatchEngine.RESPONSE_SUFFIX,
      HttpModel(m.headers, m.body, false), lfFree);
  }

  /** On LF-free heads the Content-Length pass leaves the fields alone, so what is sent is what is printed. */
  lemma SentIsPrinted(startLine: string, order: seq<string>, headers: HeaderMap, body: string)
    requires NoLf(startLine) && IsOrder(order, headers) && EntriesLfFree(headers)
    ensures Sent(startLine, order, headers, body) == Printed(startLine, order, headers, body)
  {
    hide LinesOf, WithLength, Terminated, Joined, FieldLines, SentLines;
    SecondPass(startLine, order, headers, |body|);
  }

  /** A payload whose own head hides no Content-Length key. */
  ghost predicate CleanPayload(payload: string) {
    match ParseMessage(payload) case None => true case Some(m) => Clean(m.startLine, m.headers)
  }

  // ---------- taking an answer apart ----------

  lemma AnswerParts(c: PatchEngine.Config, rules: seq<Rule>, context: ProtocolContext, payload: string,
                    m: Message, host: string, result: string)
    returns (order: seq<string>)
    requires ParseMessage(payload) == Some(m) && RulesLfFree(rules)
    requires Answer(c, rules, context, payload, m, host, true, result)
    ensures var p := PatchMessage(c, rules, context, m, host);
            p.changed && IsOrder(order, p.headers) && NoLf(m.startLine) && EntriesLfFree(p.headers)
            && Readable(m.headers) && result == Printed(m.startLine, order, p.headers, p.body)
  {
    hide ParseMessage, PatchMessage, Sent, Printed;
    var p := PatchMessage(c, rules, context, m, host);
    order :| IsOrder(order, p.headers) && result == Sent(m.startLine, order, p.headers, p.body);
    ParsedIsLfFree(payload);
    PatchedIsLfFree(c, rules, context, m, host);
    SentIsPrinted(m.startLine, order, p.headers, p.body);
  }

  lemma OutcomeParts(c: PatchEngine.Config, rules: seq<Rule>, context: ProtocolContext, payload: string, result: string)
    returns (m: Message, host: string, order: seq<string>)
    requires Outcome(c, rules, context, payload, true, result) && RulesLfFree(rules)
    ensures ParseMessage(payload) == Some(m) && HostFor(context, m.headers, host)
    ensures var p := PatchMessage(c, rules, context, m, host);
            p.changed && IsOrder(order, p.headers) && NoLf(m.startLine) && EntriesLfFree(p.headers)
            && Readable(m.headers) && result == Printed(m.startLine, order, p.headers, p.body)
  {
    hide ParseMessage, PatchMessage, Answer, HostFor;
    m := ParseMessage(payload).value;
    host :| HostFor(context, m.headers, host) && Answer(c, rules, context, payload, m, host, true, result);
    order := AnswerParts(c, rules, context, payload, m, host, result);
  }

  /** Every printed form of the patched message is an answer. */
  lemma PrintedIsAnswer(c: PatchEngine.Config, rules: seq<Rule>, context: ProtocolContext, payload: string,
                        m: Message, host: string, order: seq<string>)
    requires ParseMessage(payload) == Some(m) && RulesLfFree(rules)
    requires PatchMessage(c, rules, context, m, host).changed
    requires IsOrder(order, PatchMessage(c, rules, context, m, host).headers)
    ensures var p := PatchMessage(c, rules, context, m, host);
            && NoLf(m.startLine) && EntriesLfFree(p.headers)
            && Answer(c, rules, context, payload, m, host, true, Printed(m.startLine, order, p.headers, p.body))
  {
    hide ParseMessage, PatchMessage, Sent, Printed;
    var p := PatchMessage(c, rules, context, m, host);
    ParsedIsLfFree(payload);
    PatchedIsLfFree(c, rules, context, m, host);
    SentIsPrinted(m.startLine, order, p.headers, p.body);
  }

  // ---------- main results ----------

  /** Self-framing of patched HTTP: a payload for which `apply_patch` answered true is cut back by the
      reassembly buffer as exactly one message, provided no line that is printed as it stands hides the
      Content-Length key. */
  lemma PatchedIsSelfFramed(c: PatchEngine.Config, rules: seq<Rule>, context: ProtocolContext,
                            payload: string, result: string)
    requires Outcome(c, rules, context, payload, true, result)
    requires RulesLfFree(rules) && RulesHarmless(rules)
    requires CleanPayload(payload)
    requires |result| < SIZE_T
    ensures SelfFramed(result)
  {
    hide Outcome, ParseMessage, PatchMessage, Printed, SelfFramed, HostFor, Clean;
    var m, host, order := OutcomeParts(c, rules, context, payload, result);
    var p := PatchMessage(c, rules, context, m, host);
    PatchedIsClean(c, rules, context, m, host);
    PrintedIsSelfFramed(m.startLine, order, p.headers, p.body);
  }

  /** Exactly when patching a payload can only give messages that frame themselves: whatever host and
      visiting orders are found, no printed line announces another size than that of the body. */
  lemma PatchedFramesIff(c: PatchEngine.Config, rules: seq<Rule>, context: ProtocolContext, payload: string, m: Message)
    requires ParseMessage(payload) == Some(m) && RulesLfFree(rules)
    requires forall host, result | Answer(c, rules, context, payload, m, host, true, result) :: |result| < SIZE_T
    ensures (forall host, result | HostFor(context, m.headers, host)
                                   && Answer(c, rules, context, payload, m, host, true, result) :: SelfFramed(result))
            <==> forall host | HostFor(context, m.headers, host) && PatchMessage(c, rules, context, m, host).changed ::
                   var p := PatchMessage(c, rules, context, m, host);
                   AnnouncesSize(m.startLine, p.headers, |p.body|)
  {
    hide ParseMessage, PatchMessage, Printed, SelfFramed, HostFor, AnnouncesSize, Answer, IsOrder;
    forall host | PatchMessage(c, rules, context, m, host).changed
      ensures var p := PatchMessage(c, rules, context, m, host);
              (forall result | Answer(c, rules, context, payload, m, host, true, result) :: SelfFramed(result))
              <==> AnnouncesSize(m.startLine, p.headers, |p.body|)
    {
      AnswersFrameIff(c, rules, context, payload, m, host);
    }
    forall host, result | Answer(c, rules, context, payload, m, host, true, result)
      ensures PatchMessage(c, rules, context, m, host).changed
    {
      var order := AnswerParts(c, rules, context, payload, m, host, result);
    }
  }

  lemma AnswersFrameIff(c: PatchEngine.Config, rules: seq<Rule>, context: ProtocolContext, payload: string,
                        m: Message, host: string)
    requires ParseMessage(payload) == Some(m) && RulesLfFree(rules) && PatchMessage(c, rules, context, m, host).changed
    requires forall result | Answer(c, rules, context, payload, m, host, true, result) :: |result| < SIZE_T
    ensures var p := PatchMessage(c, rules, context, m, host);
            (forall result | Answer(c, rules, context, payload, m, host, true, result) :: SelfFramed(result))
            <==> AnnouncesSize(m.startLine, p.headers, |p.body|)
  {
    hide ParseMessage, PatchMessage, Printed, SelfFramed, AnnouncesSize, Answer;
    var p := PatchMessage(c, rules, context, m, host);
    forall order | IsOrder(order, p.headers)
      ensures Answer(c, rules, context, payload, m, host, true, Printed(m.startLine, order, p.headers, p.body))
    {
      PrintedIsAnswer(c, rules, context, payload, m, host, order);
    }
    var someOrder := SomeOrder(p.headers);
    PrintedIsAnswer(c, rules, context, payload, m, host, someOrder);
    FramedForEveryOrderIff(m.startLine, p.headers, p.body);
    if AnnouncesSize(m.startLine, p.headers, |p.body|) {
      forall result | Answer(c, rules, context, payload, m, host, true, result) ensures SelfFramed(result) {
        var order := AnswerParts(c, rules, context, payload, m, host, result);
      }
    }
  }

  lemma ProxyHeaderIsHarmless()
    ensures Harmless(PatchEngine.PROXY_NAME, PatchEngine.PROXY_VALUE)
  {
    hide Find, At, ToLower;
    var name, value := PatchEngine.PROXY_NAME, PatchEngine.PROXY_VALUE;
    ToLowerConcat(name + ": ", value);
    ToLowerConcat(name, ": ");
    NoLetterC();
    AbsentFirstChar(ToLower(name + ": " + value), LENGTH_KEY);
  }

  lemma NoLetterC()
    ensures 'c' !in ToLower(PatchEngine.PROXY_NAME) && 'c' !in ToLower(": ") && 'c' !in ToLower(PatchEngine.PROXY_VALUE)
  {
  }

  lemma PatchedIsClean(c: PatchEngine.Config, rules: seq<Rule>, context: ProtocolContext, m: Message, host: string)
    requires Clean(m.startLine, m.headers) && RulesHarmless(rules)
    ensures Clean(m.startLine, PatchMessage(c, rules, context, m, host).headers)
  {
    hide PatchEngine.HttpPipeline, CarriesKey, StartsWithIgnoreCase;
    if !IsLengthLine(m.startLine) {
      ProxyHeaderIsHarmless();
      PatchEngine.HttpPipelineEntries(c, rules, Some(RuleContext(context, m, host)),
        if m.Request? then PatchEngine.REQUEST_SUFFIX else PatchEngine.RESPONSE_SUFFIX,
        HttpModel(m.headers, m.body, false), Harmless);
    }
  }

  /** k patched messages, pipelined and cut into arbitrary chunks, come out as those k messages. */
  lemma PatchedStreamReframes(c: PatchEngine.Config, rules: seq<Rule>, context: ProtocolContext,
                              payloads: seq<string>, results: seq<string>, chunks: seq<string>)
    requires |payloads| == |results|
    requires forall i | 0 <= i < |payloads| :: Outcome(c, rules, context, payloads[i], true, results[i])
    requires forall i | 0 <= i < |payloads| :: CleanPayload(payloads[i])
    requires RulesLfFree(rules) && RulesHarmless(rules)
    requires forall i | 0 <= i < |results| :: |results[i]| < SIZE_T
    requires Flatten(chunks) == Flatten(results)
    ensures Feed("", chunks) == Drained(results, "")
  {
    hide Outcome, CleanPayload, SelfFramed, RulesHarmless, RulesLfFree;
    forall i | 0 <= i < |results| ensures SelfFramed(results[i]) {
      PatchedIsSelfFramed(c, rules, context, payloads[i], results[i]);
    }
    PipelinedInAnyChunks(results, chunks);
  }

  // ---------- a message that is sent with the wrong length ----------

  const EXAMPLE_CONFIG: PatchEngine.Config :=
    PatchEngine.Config(false, false, false, false, "", "", "", "", "", "", "", "")
  function HeaderRule(headers: HeaderMap): Rule {
    Rule("r", Condition("", "", "", "", "", "", 0), Action("", "", "", "", "", "", headers))
  }

  const EXAMPLE_CONTEXT: ProtocolContext := ProtocolContext(Http, "outbound", "host", "", 80, "")
  const EXAMPLE_PAYLOAD: string := EXAMPLE_START + HEAD_END

  /** A self-framed request without headers, and one rule that sets X-Content-Length: 5. The answer of
      `apply_patch` has no body, and the reassembly buffer waits for five more bytes. */
  lemma MisframedOutcome()
    ensures SelfFramed(EXAMPLE_PAYLOAD) && CleanPayload(EXAMPLE_PAYLOAD)
    ensures Outcome(EXAMPLE_CONFIG, [HeaderRule(EXAMPLE_HEADERS)], EXAMPLE_CONTEXT, EXAMPLE_PAYLOAD, true, EXAMPLE_TEXT)
    ensures Take(EXAMPLE_TEXT).None? && !SelfFramed(EXAMPLE_TEXT)
  {
    hide ParseMessage, Sent, Printed, Take, PatchMessage, IsOrder;
    ExampleParsed();
    assert EXAMPLE_NAME in EXAMPLE_HEADERS;
    HeaderRulePatched(EXAMPLE_HEADERS);
    ExampleNames();
    ExampleIsFramed();
    HiddenKeyExample();
    SentIsPrinted(EXAMPLE_START, [EXAMPLE_NAME], EXAMPLE_HEADERS, "");
    assert HostFor(EXAMPLE_CONTEXT, EXAMPLE_MESSAGE.headers, "host");
    assert Answer(EXAMPLE_CONFIG, [HeaderRule(EXAMPLE_HEADERS)], EXAMPLE_CONTEXT, EXAMPLE_PAYLOAD,
                  EXAMPLE_MESSAGE, "host", true, EXAMPLE_TEXT);
  }

  lemma ExampleIsFramed()
    ensures SelfFramed(EXAMPLE_PAYLOAD)
  {
    hide SelfFramed, CarriesKey, AnnouncedBy;
    ExampleNames();
    FramedIffDeclared([EXAMPLE_START], "");
    assert Joined([EXAMPLE_START]) + HEAD_END + "" == EXAMPLE_PAYLOAD;
  }

  const EXAMPLE_MESSAGE: Message := Request(EXAMPLE_START, map[], "", "GET", "/")

  lemma ExampleParsed()
    ensures ParseMessage(EXAMPLE_PAYLOAD) == Some(EXAMPLE_MESSAGE)
  {
    hide Find, At, LinesOf, StartsWithIgnoreCase;
    var payload := EXAMPLE_PAYLOAD;
    assert [EXAMPLE_START] == [EXAMPLE_START][..1];
    HeadEndAt([EXAMPLE_START], "");
    assert Terminated([EXAMPLE_START][1..]) == "";
    assert Terminated([EXAMPLE_START]) + CRLF + "" == payload;
    assert payload[..14] == EXAMPLE_START && payload[18..] == "";
    assert |EXAMPLE_START| == 14;
    assert NoLf(EXAMPLE_START);
    LinesOfLast(EXAMPLE_START);
    ExampleStartLine();
  }

  lemma ExampleStartLine()
    ensures ParseParts([EXAMPLE_START], "") == Some(EXAMPLE_MESSAGE)
  {
    hide Find, At;
    var line := EXAMPLE_START;
    assert ToLower(line[..5])[0] == 'g' && ToLower("HTTP/")[0] == 'h';
    forall j: nat | j < 5 && j != 3 ensures !At(line, " ", j) { AtChar(line, ' ', j); }
    AtChar(line, ' ', 3);
    AtChar(line, ' ', 5);
    FindIs(line, " ", 0, 3);
    FindIs(line, " ", 4, 5);
    assert line[..3] == "GET" && line[4..5] == "/";
    assert [line][1..] == [];
  }

  lemma HeaderRulePatched(headers: HeaderMap)
    requires headers != map[]
    ensures PatchMessage(EXAMPLE_CONFIG, [HeaderRule(headers)], EXAMPLE_CONTEXT, EXAMPLE_MESSAGE, "host")
         == HttpModel(headers, "", true)
  {
    hide Selected, HttpActions;
    HeaderRuleSelected(headers, RuleContext(EXAMPLE_CONTEXT, EXAMPLE_MESSAGE, "host"));
    HeaderRuleActs(headers);
  }

  lemma HeaderRuleSelected(headers: HeaderMap, context: MatchContext)
    ensures Selected([HeaderRule(headers)], context) == [HeaderRule(headers).action]
  {
    hide Matches;
    HeaderRuleMatches(headers, context);
    assert [HeaderRule(headers)][..0] == [];
    assert Selected([], context) == [];
  }

  lemma HeaderRuleMatches(headers: HeaderMap, context: MatchContext)
    ensures Matches(HeaderRule(headers).when, context)
  {
  }

  lemma HeaderRuleActs(headers: HeaderMap)
    requires headers != map[]
    ensures HttpActions([HeaderRule(headers).action], HttpModel(map[], "", false)) == HttpModel(headers, "", true)
  {
    hide Substitute;
    var a, m := HeaderRule(headers).action, HttpModel(map[], "", false);
    NothingSelected(PatchEngine.NO_CONTEXT, Patched("", false), m);
    assert [a][..0] == [];
    assert HttpActions([a], m) == HttpAction(a, m);
    SetOnEmpty(headers);
    SubstituteNothing(Patched("", true));
  }

  lemma SetOnEmpty(headers: HeaderMap)
    requires headers != map[]
    ensures SetHeaders(HttpModel(map[], "", false), headers) == HttpModel(headers, "", true)
  {
    var name :| name in headers;
    assert map[] + headers == headers;
  }

  lemma SubstituteNothing(p: Patched)
    ensures Substitute(p, "", "") == p
  {
    Replace.NoOccurrence(p.payload, "", "");
  }
}
