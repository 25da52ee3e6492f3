/** What a rule sees of a request and of a response (src/protocol/http_protocol_adapter.cpp,
    src/rules/rule_engine.cpp), read off the bytes of the payload. */
module HttpRules {
  import opened Text
  import opened RuleModel
  import opened HttpHead
  import opened HttpFraming
  import opened HttpAdapter
  import opened ProtocolDetector
  import opened Framing
  import PatchEngine
  import RuleLines
  import Replace

  // ---------- the first line ----------

  /** The first line of a head is read as it is, up to one CR when it is the whole head. */
  lemma FirstLineIsRead(line: string, tail: string)
    requires NoLf(line) && line != "" && Find(line + CRLF + tail, HEAD_END, 0).Some?
    ensures var payload := line + CRLF + tail;
            var lines := LinesOf(payload[..Find(payload, HEAD_END, 0).value]);
            lines != [] && (lines[0] == line || lines[0] == StripCr(line))
  {
    hide Find, At, LinesOf, StripCr;
    var payload := line + CRLF + tail;
    var h := Find(payload, HEAD_END, 0).value;
    FindLeftmost(payload, HEAD_END, 0);
    NoHeadEndInLine(line, tail);
    if h == |line| {
      assert payload[..h] == line;
      LinesOfLast(line);
    } else {
      if h == |line| + 1 { FirstCharDiffers(payload, HEAD_END, h); }
      var more := payload[|line| + 2..h];
      assert payload[..h] == line + CRLF + more;
      LinesOfCons(line, more);
    }
  }

  /** Two words in front of a rest, and no version: a request line. */
  lemma RequestLineIsRead(line: string, verb: string, target: string, rest: string)
    requires line == verb + " " + target + " " + rest && ' ' !in verb && ' ' !in target
    requires !StartsWithIgnoreCase(verb, "HTTP/")
    ensures !StartsWithIgnoreCase(line, "HTTP/")
    ensures Find(line, " ", 0) == Some(|verb|) && Find(line, " ", |verb| + 1) == Some(|verb| + 1 + |target|)
    ensures line[..|verb|] == verb && line[|verb| + 1..|verb| + 1 + |target|] == target
  {
    hide Find, At;
    VersionNeedsFiveLetters(verb, " " + target + " " + rest);
    assert line == verb + (" " + target + " " + rest);
    forall j: nat | j < |verb| ensures !At(line, " ", j) { assert line[j] == verb[j]; AtChar(line, ' ', j); }
    AtChar(line, ' ', |verb|);
    FindIs(line, " ", 0, |verb|);
    var second := |verb| + 1 + |target|;
    forall j: nat | |verb| + 1 <= j < second ensures !At(line, " ", j) {
      assert line[j] == target[j - |verb| - 1];
      AtChar(line, ' ', j);
    }
    AtChar(line, ' ', second);
    FindIs(line, " ", |verb| + 1, second);
  }

  lemma VersionNeedsFiveLetters(verb: string, rest: string)
    requires rest != "" && rest[0] == ' '
    ensures StartsWithIgnoreCase(verb + rest, "HTTP/") <==> StartsWithIgnoreCase(verb, "HTTP/")
  {
    var line := verb + rest;
    if |verb| >= 5 {
      assert line[..5] == verb[..5];
    } else if |line| >= 5 {
      assert ToLower(line[..5])[|verb|] == ' ' && ToLower("HTTP/")[|verb|] != ' ';
    }
  }

  lemma StrippedRequestLine(verb: string, target: string, rest: string) returns (shorter: string)
    ensures StripCr(verb + " " + target + " " + rest) == verb + " " + target + " " + shorter
  {
    shorter := StripCr(rest);
    var line := verb + " " + target + " " + rest;
    if rest != "" {
      assert line[|line| - 1] == rest[|rest| - 1];
      assert line[..|line| - 1] == verb + " " + target + " " + rest[..|rest| - 1];
    } else {
      assert line[|line| - 1] == ' ';
    }
  }

  /** Every payload with a blank line whose first line is two words and a rest is a request for them. */
  lemma RequestIsRead(verb: string, target: string, rest: string, tail: string)
    requires ' ' !in verb && ' ' !in target && NoLf(verb + " " + target + " " + rest)
    requires !StartsWithIgnoreCase(verb, "HTTP/")
    requires Contains(verb + " " + target + " " + rest + CRLF + tail, HEAD_END)
    ensures var m := ParseMessage(verb + " " + target + " " + rest + CRLF + tail);
            m.Some? && m.value.Request? && m.value.verb == verb && m.value.target == target
  {
    hide Find, LinesOf, HeadersOf, StartsWithIgnoreCase, StripCr;
    var line := verb + " " + target + " " + rest;
    var payload := line + CRLF + tail;
    FirstLineIsRead(line, tail);
    var lines := LinesOf(payload[..Find(payload, HEAD_END, 0).value]);
    RequestLineIsRead(line, verb, target, rest);
    var shorter := StrippedRequestLine(verb, target, rest);
    RequestLineIsRead(StripCr(line), verb, target, shorter);
  }

  lemma StrippedResponseLine(line: string)
    requires StartsWithIgnoreCase(line, "HTTP/")
    ensures line != "" && StartsWithIgnoreCase(StripCr(line), "HTTP/")
  {
    var stripped := StripCr(line);
    assert ToLower(line[..5])[4] == ToLower("HTTP/")[4];
    assert line[4] != '\r';
    assert stripped[..5] == line[..5];
  }

  /** Every payload with a blank line whose first line begins with HTTP/ is a response. */
  lemma ResponseIsRead(line: string, tail: string)
    requires NoLf(line) && StartsWithIgnoreCase(line, "HTTP/") && Contains(line + CRLF + tail, HEAD_END)
    ensures var m := ParseMessage(line + CRLF + tail); m.Some? && m.value.Response?
  {
    hide Find, LinesOf, HeadersOf, StartsWithIgnoreCase, StripCr;
    StrippedResponseLine(line);
    FirstLineIsRead(line, tail);
  }

  // ---------- the conditions ----------

  /** The seven conditions of a rule, each on the value it is about. */
  predicate AllHold(w: Condition, protocol: string, direction: string, host: string, verb: string, path: string,
                    processName: string, remotePort: Port)
  {
    && (w.protocol == "" || w.protocol == "any" || w.protocol == ToLower(protocol))
    && (w.direction == "" || w.direction == "any" || w.direction == ToLower(direction))
    && (w.hostContains == "" || Find(ToLower(host), w.hostContains, 0).Some?)
    && (w.verb == "" || w.verb == ToLower(verb))
    && (w.pathContains == "" || Find(ToLower(path), w.pathContains, 0).Some?)
    && (w.processName == "" || w.processName == ToLower(processName))
    && (w.remotePort == 0 || w.remotePort == remotePort)
  }

  /** The rule sets a header that the message does not have with that value. */
  predicate SetsNew(rule: Rule, headers: HeaderMap) {
    exists name | name in rule.action.headerSet ::
      !(name in headers && headers[name] == rule.action.headerSet[name])
  }

  /** No stage but the rules. */
  predicate RulesOnly(c: PatchEngine.Config) {
    !c.addProxyHeader && !c.appendDebugSuffix
  }

  lemma OneRuleChanges(c: PatchEngine.Config, rule: Rule, x: MatchContext, suffix: string, m: HttpModel)
    requires RulesOnly(c) && !m.changed && SetsNew(rule, m.headers)
    ensures PatchEngine.HttpPipeline(c, [rule], Some(x), suffix, m).changed <==>
              AllHold(rule.when, x.protocol, x.direction, x.host, x.verb, x.path, x.processName, x.remotePort)
    ensures PatchEngine.HttpPipeline(c, [rule], Some(x), suffix, m).changed ==>
              PatchEngine.HttpPipeline(c, [rule], Some(x), suffix, m).headers == m.headers + rule.action.headerSet
  {
    hide Selected, HttpActions, TransportActions, Find, ToLower, Replace.ReplaceAll, Replace.Occurrences;
    var p := Patched("", false);
    NothingSelected(x, p, m);
    var none: seq<Rule> := [];
    assert none + [rule] == [rule] && none + [rule] + none == [rule] && none + none == none;
    if AllHold(rule.when, x.protocol, x.direction, x.host, x.verb, x.path, x.processName, x.remotePort) {
      FulfilledRuleActs(none, rule, x, p, m);
    } else {
      ContradictedRuleIsSkipped(none, rule, none, x, p, m);
    }
  }

  /** The host a rule is matched against: that of the connection, else the value of a header whose name
      begins with Host, else nothing. */
  ghost predicate MatchedHost(context: ProtocolContext, headers: HeaderMap, host: string) {
    if context.host != "" then host == context.host
    else if exists name | name in headers :: StartsWithIgnoreCase(name, "Host")
    then exists name | name in headers :: StartsWithIgnoreCase(name, "Host") && headers[name] == host
    else host == ""
  }

  function KindText(kind: ProtocolKind): string {
    if kind == Http then "http" else if kind == Https then "https" else "unknown"
  }

  /** A rule acts on a request exactly when its conditions hold of the method and the target that stand in
      the first line of the payload, and of the connection; the path of the connection counts only when
      the target is empty. */
  lemma RequestRuleActsIff(c: PatchEngine.Config, rule: Rule, context: ProtocolContext, verb: string, target: string,
                           rest: string, tail: string, changed: bool, result: string)
    returns (host: string)
    requires RulesOnly(c)
    requires ' ' !in verb && ' ' !in target && NoLf(verb + " " + target + " " + rest)
    requires !StartsWithIgnoreCase(verb, "HTTP/")
    requires Contains(verb + " " + target + " " + rest + CRLF + tail, HEAD_END)
    requires var m := ParseMessage(verb + " " + target + " " + rest + CRLF + tail);
             m.Some? ==> SetsNew(rule, m.value.headers)
    requires Outcome(c, [rule], context, verb + " " + target + " " + rest + CRLF + tail, changed, result)
    ensures var m := ParseMessage(verb + " " + target + " " + rest + CRLF + tail);
            m.Some? && MatchedHost(context, m.value.headers, host)
    ensures changed <==>
              AllHold(rule.when, KindText(context.kind), context.direction, host, verb,
                      if target != "" then target else context.path, context.processName, context.remotePort)
    ensures !changed ==> result == verb + " " + target + " " + rest + CRLF + tail
  {
    hide ParseMessage, Sent, SetsNew, Find, AllHold, PatchEngine.HttpPipeline, NoLf, StartsWithIgnoreCase;
    var payload := verb + " " + target + " " + rest + CRLF + tail;
    RequestIsRead(verb, target, rest, tail);
    var m := ParseMessage(payload).value;
    host :| HostFor(context, m.headers, host) && Answer(c, [rule], context, payload, m, host, changed, result);
    var x := RuleContext(context, m, host);
    OneRuleChanges(c, rule, x, PatchEngine.REQUEST_SUFFIX, HttpModel(m.headers, m.body, false));
  }

  /** On a response there is no method, and the path is that of the connection. */
  lemma ResponseRuleActsIff(c: PatchEngine.Config, rule: Rule, context: ProtocolContext, line: string, tail: string,
                            changed: bool, result: string)
    returns (host: string)
    requires RulesOnly(c)
    requires NoLf(line) && StartsWithIgnoreCase(line, "HTTP/") && Contains(line + CRLF + tail, HEAD_END)
    requires var m := ParseMessage(line + CRLF + tail); m.Some? ==> SetsNew(rule, m.value.headers)
    requires Outcome(c, [rule], context, line + CRLF + tail, changed, result)
    ensures var m := ParseMessage(line + CRLF + tail); m.Some? && MatchedHost(context, m.value.headers, host)
    ensures changed <==>
              AllHold(rule.when, KindText(context.kind), context.direction, host, "", context.path,
                      context.processName, context.remotePort)
    ensures !changed ==> result == line + CRLF + tail
  {
    hide ParseMessage, Sent, SetsNew, Find, AllHold, PatchEngine.HttpPipeline, NoLf, StartsWithIgnoreCase;
    var payload := line + CRLF + tail;
    ResponseIsRead(line, tail);
    var m := ParseMessage(payload).value;
    host :| HostFor(context, m.headers, host) && Answer(c, [rule], context, payload, m, host, changed, result);
    var x := RuleContext(context, m, host);
    OneRuleChanges(c, rule, x, PatchEngine.RESPONSE_SUFFIX, HttpModel(m.headers, m.body, false));
  }

  // ---------- the configured marks ----------

  /** Without rules the proxy header is set and, on a body that is not empty, the suffix of a request or of
      a response is added, as configured; nothing else changes, and without either nothing at all. */
  lemma ConfiguredMarks(c: PatchEngine.Config, context: ProtocolContext, payload: string, m: Message,
                        changed: bool, result: string)
    requires ParseMessage(payload) == Some(m) && Outcome(c, [], context, payload, changed, result)
    ensures changed <==>
              || (c.addProxyHeader
                  && !("X-Network-Proxy" in m.headers && m.headers["X-Network-Proxy"] == "network_proxy"))
              || (c.appendDebugSuffix && m.body != "")
    ensures changed ==>
              var headers := if c.addProxyHeader then m.headers["X-Network-Proxy" := "network_proxy"] else m.headers;
              var body := if !c.appendDebugSuffix || m.body == "" then m.body
                          else if m.Request? then m.body + "\n[patched-by-network-proxy-request]"
                          else m.body + "\n[patched-by-network-proxy-response]";
              exists order | IsOrder(order, headers) :: result == Printed(m.startLine, order, headers, body)
  {
    hide ParseMessage, Sent, Printed, HostFor, Selected, HttpActions, RuleContext, IsOrder;
    var host :| HostFor(context, m.headers, host) && Answer(c, [], context, payload, m, host, changed, result);
    var none: seq<Rule> := [];
    NothingSelected(RuleContext(context, m, host), Patched("", false), HttpModel(m.headers, m.body, false));
    PatchEngine.SetOneHeader(HttpModel(m.headers, m.body, false), "X-Network-Proxy", "network_proxy");
    if changed {
      var order := AnswerParts(c, none, context, payload, m, host, result);
    }
  }

  // ---------- the demonstration rule at work ----------

  const DEMO_LINE: string := "POST /api HTTP/1.1"
  const DEMO_RESULT: string :=
    DEMO_LINE + CRLF + "X-Trace-Id: dsl-trace" + CRLF + "Content-Length: 0" + HEAD_END
  const DEMO_MESSAGE: Message := Request(DEMO_LINE, map[], "", "POST", "/api")
  const DEMO_HEADERS: HeaderMap := map["X-Trace-Id" := "dsl-trace"]

  /** The rule of config/rules.dsl on a request for its path: the header is set, for every host and port. */
  lemma DemoRuleActs(host: string, port: Port)
    ensures Outcome(EXAMPLE_CONFIG, [RuleLines.DEMO_RULE], ProtocolContext(Http, "outbound", host, "", port, ""),
                    DEMO_LINE + HEAD_END, true, DEMO_RESULT)
  {
    hide ParseMessage, PatchMessage, Sent, Printed, IsOrder, NoLf, EntriesLfFree, RulesLfFree;
    var context := ProtocolContext(Http, "outbound", host, "", port, "");
    DemoIsParsed();
    DemoIsPatched(context, host);
    DemoIsPrinted();
    DemoRuleIsLfFree();
    PrintedIsAnswer(EXAMPLE_CONFIG, [RuleLines.DEMO_RULE], context, DEMO_LINE + HEAD_END, DEMO_MESSAGE, host,
                    ["X-Trace-Id"]);
    assert HostFor(context, DEMO_MESSAGE.headers, host);
  }

  lemma DemoIsParsed()
    ensures ParseMessage(DEMO_LINE + HEAD_END) == Some(DEMO_MESSAGE)
  {
    hide ParseMessage, ParseParts;
    DemoLineEnds();
    BareHeadIsRead(DEMO_LINE);
    DemoLineIsRead();
  }

  lemma DemoLineEnds()
    ensures NoLf(DEMO_LINE) && StripCr(DEMO_LINE) == DEMO_LINE
  {
  }

  /** A message that is one line and a blank line. */
  lemma BareHeadIsRead(line: string)
    requires NoLf(line) && line != "" && StripCr(line) == line
    ensures ParseMessage(line + HEAD_END) == ParseParts([line], "")
  {
    hide Find, LinesOf, StripCr, ParseParts;
    var payload := line + HEAD_END;
    HeadEndAt([line], "");
    assert Terminated([line][1..]) == "";
    assert Terminated([line]) + CRLF + "" == payload;
    assert payload[..|line|] == line && payload[|line| + 4..] == "";
    LinesOfLast(line);
  }

  lemma DemoLineIsRead()
    ensures ParseParts([DEMO_LINE], "") == Some(DEMO_MESSAGE)
  {
    hide Find, StartsWithIgnoreCase;
    assert DEMO_LINE == "POST" + " " + "/api" + " " + "HTTP/1.1";
    PostIsNoVersion();
    RequestLineIsRead(DEMO_LINE, "POST", "/api", "HTTP/1.1");
    assert [DEMO_LINE][1..] == [];
  }

  lemma PostIsNoVersion()
    ensures !StartsWithIgnoreCase("POST", "HTTP/") && ' ' !in "POST" && ' ' !in "/api"
  {
  }

  lemma DemoIsPatched(context: ProtocolContext, host: string)
    requires context.kind == Http && context.direction == "outbound"
    ensures PatchMessage(EXAMPLE_CONFIG, [RuleLines.DEMO_RULE], context, DEMO_MESSAGE, host)
         == HttpModel(DEMO_HEADERS, "", true)
  {
    hide Selected, HttpActions, TransportActions, Find, ToLower, Replace.ReplaceAll, Replace.Occurrences;
    var none: seq<Rule> := [];
    var x, m := RuleContext(context, DEMO_MESSAGE, host), HttpModel(map[], "", false);
    assert none + [RuleLines.DEMO_RULE] == [RuleLines.DEMO_RULE];
    assert "X-Trace-Id" in DEMO_HEADERS && map[] + DEMO_HEADERS == DEMO_HEADERS;
    NothingSelected(x, Patched("", false), m);
    DemoHolds();
    NoHexIsNothing();
    FulfilledRuleActs(none, RuleLines.DEMO_RULE, x, Patched("", false), m);
  }

  lemma DemoHolds()
    ensures ToLower("http") == "http" && ToLower("outbound") == "outbound" && ToLower("POST") == "post"
    ensures Find(ToLower("/api"), "/api", 0).Some?
  {
    assert ToLower("/api") == "/api";
    hide Find;
    AtHere("/api", "/api", 0);
    FindIs("/api", "/api", 0, 0);
  }

  lemma DemoRuleIsLfFree()
    ensures RulesLfFree([RuleLines.DEMO_RULE])
  {
  }

  lemma DemoIsPrinted()
    ensures IsOrder(["X-Trace-Id"], DEMO_HEADERS)
    ensures Printed(DEMO_LINE, ["X-Trace-Id"], DEMO_HEADERS, "") == DEMO_RESULT
  {
    hide Joined, LengthLine, IsLengthLine, IsLengthName;
    DemoNames();
    assert SentLines(DEMO_LINE, ["X-Trace-Id"], DEMO_HEADERS, 0)
        == [DEMO_LINE, "X-Trace-Id" + ": " + "dsl-trace", LengthLine(0)];
    DemoText();
  }

  lemma DemoNames()
    ensures !IsLengthLine(DEMO_LINE) && !IsLengthName("X-Trace-Id")
  {
    assert ToLower(DEMO_LINE[..15])[0] == 'p' && ToLower("Content-Length:")[0] == 'c';
  }

  lemma DemoText()
    ensures Joined([DEMO_LINE, "X-Trace-Id" + ": " + "dsl-trace", LengthLine(0)]) + HEAD_END + "" == DEMO_RESULT
  {
    assert LengthLine(0) == "Content-Length: 0";
    hide LengthLine;
    JoinedThree(DEMO_LINE, "X-Trace-Id" + ": " + "dsl-trace", LengthLine(0));
    assert "X-Trace-Id" + ": " + "dsl-trace" == "X-Trace-Id: dsl-trace";
  }
}
