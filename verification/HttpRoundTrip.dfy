/** Reading back what the HTTP adapter sends (src/protocol/http_protocol_adapter.cpp). */
module HttpRoundTrip {
  import opened Text
  import opened RuleModel
  import opened HttpHead
  import opened HttpFraming
  import opened HttpAdapter
  import PatchEngine
  import RuleDsl
  import RuleText

  // ---------- what the bytes are read as ----------

  /** The start line of `m` reads as that of `m`; true of every parsed message. */
  predicate StartsMessage(m: Message) {
    NoLf(m.startLine) && ParseParts([m.startLine], m.body) == Some(m.(headers := map[]))
  }

  lemma ParsedStartsMessage(payload: string)
    requires ParseMessage(payload).Some?
    ensures StartsMessage(ParseMessage(payload).value)
  {
    ParsedIsLfFree(payload);
    hide Find, LinesOf, StartsWithIgnoreCase;
    assert forall line: string :: [line][1..] == [];
  }

  /** Reading the printed bytes is reading the start line with the fields as sent. */
  lemma PrintedIsRead(startLine: string, order: seq<string>, headers: HeaderMap, body: string)
    requires NoLf(startLine) && IsOrder(order, headers) && EntriesLfFree(headers)
    requires IsOrder(order, AsSent(order, headers))
    ensures ParseMessage(Printed(startLine, order, headers, body)) ==
            ParseParts([FixedLine(startLine, |body|)] + FieldLines(order, AsSent(order, headers), |body|), body)
  {
    hide Find, LinesOf, Joined, FieldLines, FixedLine, Printed, AsSent, LastLine, ParseParts, EntriesLfFree;
    PrintedSplits(startLine, order, headers, body);
    SentLinesShape(startLine, order, headers, |body|);
    var lines := SentLines(startLine, order, headers, |body|);
    var fields := FieldLines(order, headers, |body|);
    LinesOfJoined(lines);
    FieldsAsRead(order, headers, |body|);
    assert AsRead(lines) == [FixedLine(startLine, |body|)] + AsRead(fields);
  }

  /** The headers are read off the fields as sent; when the start line was itself rewritten as a
      Content-Length field, the bytes are no message at all. */
  function ReadOff(m: Message, order: seq<string>, headers: HeaderMap, body: string): Option<Message>
    requires forall i | 0 <= i < |order| :: order[i] in headers
  {
    if IsLengthLine(m.startLine) then None
    else Some(m.(headers := HeadersOf(FieldLines(order, AsSent(order, headers), |body|)), body := body))
  }

  /** What the bytes sent are read as, whatever names and values they hold. */
  lemma SentIsParsed(m: Message, order: seq<string>, headers: HeaderMap, body: string)
    requires StartsMessage(m) && IsOrder(order, headers) && EntriesLfFree(headers)
    ensures ParseMessage(Printed(m.startLine, order, headers, body)) == ReadOff(m, order, headers, body)
  {
    hide ParseMessage, ParseParts, FieldLines, IsLengthLine, Printed, AsSent, LengthLine, HeadersOf;
    AsSentKeeps(order, headers);
    PrintedIsRead(m.startLine, order, headers, body);
    var fields := FieldLines(order, AsSent(order, headers), |body|);
    if IsLengthLine(m.startLine) {
      LengthLineIsNoStart(|body|, fields, body);
    } else {
      SameStartLine(m, fields, body);
    }
  }

  lemma SameStartLine(m: Message, fields: seq<string>, body: string)
    requires ParseParts([m.startLine], m.body) == Some(m.(headers := map[]))
    ensures ParseParts([m.startLine] + fields, body) == Some(m.(headers := HeadersOf(fields), body := body))
  {
    hide Find, HeadersOf, StartsWithIgnoreCase;
    assert ([m.startLine] + fields)[1..] == fields;
  }

  lemma LengthLineIsNoStart(n: nat, more: seq<string>, body: string)
    ensures ParseParts([LengthLine(n)] + more, body) == None
  {
    hide Find, At, HeadersOf, Decimal;
    var line := LengthLine(n);
    var d := Decimal(n);
    assert ToLower(line[..5])[0] == 'c' && ToLower("HTTP/")[0] == 'h';
    forall j: nat | 16 <= j < |line| ensures line[j] != ' ' { assert line[j] == d[j - 16]; }
    forall j: nat | j != 15 ensures !At(line, " ", j) { AtChar(line, ' ', j); }
    AtChar(line, ' ', 15);
    FindIs(line, " ", 0, 15);
    FindIsNone(line, " ", 16);
  }

  /** `m` with other headers and body, its lengths collapsed to the body size. */
  function Rebuilt(m: Message, headers: HeaderMap, body: string): Message {
    m.(headers := Collapsed(headers, |body|), body := body)
  }

  /** When names and values can be read back, only a trailing CR on the last line is lost. */
  lemma SentReadsBack(m: Message, order: seq<string>, headers: HeaderMap, body: string)
    requires StartsMessage(m) && IsOrder(order, headers) && EntriesLfFree(headers) && FieldsReadable(headers)
    ensures ParseMessage(Printed(m.startLine, order, headers, body)) ==
              if IsLengthLine(m.startLine) then None else Some(Rebuilt(m, AsSent(order, headers), body))
  {
    hide ParseMessage, StartsMessage, FieldLines, IsLengthLine, Printed, Collapsed, AsSent, FieldsReadable, HeadersOf;
    SentIsParsed(m, order, headers, body);
    AsSentKeeps(order, headers);
    AsSentReadable(order, headers);
    FieldsReadBack(order, AsSent(order, headers), |body|);
  }

  // ---------- exactly when the round trip holds ----------

  /** The printed header is read as itself, also on a last line when `mayBeLast`. */
  predicate Sound(name: string, value: string, mayBeLast: bool) {
    || IsLengthName(name)
    || (':' !in name && SkipSpace(value) == value && (mayBeLast ==> StripCr(value) == value))
  }

  /** What a caller can check before printing: the start line is no Content-Length field, no name holds a
      colon, no value begins with a blank, and, if a length header is present and any other may therefore
      be printed last, no value ends in CR. */
  ghost predicate Survives(startLine: string, headers: HeaderMap) {
    !IsLengthLine(startLine) && forall name | name in headers :: Sound(name, headers[name], HasLength(headers))
  }

  lemma SurvivingFields(startLine: string, order: seq<string>, headers: HeaderMap)
    requires Survives(startLine, headers) && IsOrder(order, headers)
    ensures FieldsReadable(headers) && AsSent(order, headers) == headers
  {
    hide StripCr, SkipSpace, IsLengthName, IsLengthLine;
    if order != [] && HasLength(headers) {
      var last := order[|order| - 1];
      assert Sound(last, headers[last], true);
      assert headers[last := headers[last]] == headers;
    }
    forall name | name in headers && !IsLengthName(name)
      ensures ':' !in name && SkipSpace(headers[name]) == headers[name]
    {
      assert Sound(name, headers[name], HasLength(headers));
    }
  }

  lemma OrderEnding(headers: HeaderMap, last: string) returns (order: seq<string>)
    requires last in headers
    ensures IsOrder(order, headers) && order != [] && order[|order| - 1] == last
  {
    var others := headers - {last};
    var front := SomeOrder(others);
    order := front + [last];
    forall name | name in headers ensures name in order {
      if name != last { assert name in others; assert name in front; }
    }
  }

  lemma CollapsedKeeps(headers: HeaderMap, n: nat, name: string)
    requires name in headers && !IsLengthName(name)
    ensures name in Collapsed(headers, n) && Collapsed(headers, n)[name] == headers[name]
  {
    hide IsLengthName, Decimal;
    LengthNameIsLengthName();
  }

  /** A header that cannot be read back is lost in every order. */
  lemma UnreadableIsLost(m: Message, order: seq<string>, headers: HeaderMap, body: string)
    requires IsOrder(order, headers) && !FieldsReadable(headers)
    ensures ParseMessage(Printed(m.startLine, order, headers, body)) != Some(Rebuilt(m, headers, body))
  {
    hide ParseMessage, Printed, SkipSpace, IsLengthName, Collapsed, EntriesLfFree;
    var payload := Printed(m.startLine, order, headers, body);
    var name :| name in headers && !IsLengthName(name)
      && !(':' !in name && SkipSpace(headers[name]) == headers[name]);
    CollapsedKeeps(headers, |body|, name);
    if ParseMessage(payload).Some? { ParsedIsLfFree(payload); }
  }

  /** A value ending in CR is changed in an order that puts it last. */
  lemma TrailingCrIsLost(m: Message, order: seq<string>, headers: HeaderMap, body: string)
    requires StartsMessage(m) && IsOrder(order, headers) && EntriesLfFree(headers) && FieldsReadable(headers)
    requires HasLength(headers) && order != []
    requires var last := order[|order| - 1]; !IsLengthName(last) && StripCr(headers[last]) != headers[last]
    ensures ParseMessage(Printed(m.startLine, order, headers, body)) != Some(Rebuilt(m, headers, body))
  {
    hide ParseMessage, Printed, StartsMessage, StripCr, IsLengthName, IsLengthLine, FieldsReadable,
         EntriesLfFree, Collapsed;
    SentReadsBack(m, order, headers, body);
    var last := order[|order| - 1];
    CollapsedKeeps(AsSent(order, headers), |body|, last);
    CollapsedKeeps(headers, |body|, last);
  }

  /** Exactly when the bytes sent are read as the message that was printed, whatever the visiting order. */
  lemma RoundTripIff(m: Message, headers: HeaderMap, body: string)
    requires StartsMessage(m) && EntriesLfFree(headers)
    ensures (forall order | IsOrder(order, headers) ::
               ParseMessage(Printed(m.startLine, order, headers, body)) == Some(Rebuilt(m, headers, body)))
            <==> Survives(m.startLine, headers)
  {
    hide ParseMessage, Printed, StartsMessage, StripCr, SkipSpace, IsLengthLine, EntriesLfFree, Rebuilt,
         AsSent, IsLengthName;
    if Survives(m.startLine, headers) {
      forall order | IsOrder(order, headers)
        ensures ParseMessage(Printed(m.startLine, order, headers, body)) == Some(Rebuilt(m, headers, body))
      {
        SurvivingFields(m.startLine, order, headers);
        SentReadsBack(m, order, headers, body);
      }
    } else {
      var order := FailingOrder(m, headers, body);
    }
  }

  lemma FailingOrder(m: Message, headers: HeaderMap, body: string) returns (order: seq<string>)
    requires StartsMessage(m) && EntriesLfFree(headers) && !Survives(m.startLine, headers)
    ensures IsOrder(order, headers)
    ensures ParseMessage(Printed(m.startLine, order, headers, body)) != Some(Rebuilt(m, headers, body))
  {
    hide ParseMessage, Printed, StartsMessage, StripCr, SkipSpace, IsLengthLine, EntriesLfFree, Rebuilt,
         AsSent, IsLengthName;
    order := SomeOrder(headers);
    if IsLengthLine(m.startLine) {
      SentIsParsed(m, order, headers, body);
    } else if !FieldsReadable(headers) {
      UnreadableIsLost(m, order, headers, body);
    } else {
      var name :| name in headers && !Sound(name, headers[name], HasLength(headers));
      order := OrderEnding(headers, name);
      TrailingCrIsLost(m, order, headers, body);
    }
  }

  // ---------- at `apply_patch` ----------

  /** What the next HTTP reader makes of a patched payload, whatever the rules set. */
  lemma PatchedReadsBack(c: PatchEngine.Config, rules: seq<Rule>, context: ProtocolContext,
                         payload: string, result: string)
    returns (m: Message, host: string, order: seq<string>)
    requires Outcome(c, rules, context, payload, true, result) && RulesLfFree(rules)
    ensures ParseMessage(payload) == Some(m) && HostFor(context, m.headers, host)
    ensures var p := PatchMessage(c, rules, context, m, host);
            && IsOrder(order, p.headers)
            && ParseMessage(result) == ReadOff(m, order, p.headers, p.body)
            && (!IsLengthLine(m.startLine) && FieldsReadable(p.headers) ==>
                  ParseMessage(result) == Some(Rebuilt(m, AsSent(order, p.headers), p.body)))
  {
    hide Outcome, ParseMessage, PatchMessage, Printed, HostFor, StartsMessage, FieldsReadable, Rebuilt, ReadOff,
         IsLengthLine, AsSent;
    m, host, order := OutcomeParts(c, rules, context, payload, result);
    var p := PatchMessage(c, rules, context, m, host);
    ParsedStartsMessage(payload);
    SentIsParsed(m, order, p.headers, p.body);
    if FieldsReadable(p.headers) { SentReadsBack(m, order, p.headers, p.body); }
  }

  /** `m` as it was patched, when this host was found. */
  function PatchedMessage(c: PatchEngine.Config, rules: seq<Rule>, context: ProtocolContext, m: Message, host: string)
    : Message
  {
    var p := PatchMessage(c, rules, context, m, host);
    Rebuilt(m, p.headers, p.body)
  }

  /** Exactly when every answer of `apply_patch` to a payload is read as the patched message. */
  lemma PatchedRoundTripIff(c: PatchEngine.Config, rules: seq<Rule>, context: ProtocolContext, payload: string,
                            m: Message)
    requires ParseMessage(payload) == Some(m) && RulesLfFree(rules)
    ensures (forall host, result | HostFor(context, m.headers, host)
                                   && Answer(c, rules, context, payload, m, host, true, result) ::
               ParseMessage(result) == Some(PatchedMessage(c, rules, context, m, host)))
            <==> forall host | HostFor(context, m.headers, host) && PatchMessage(c, rules, context, m, host).changed ::
                   Survives(m.startLine, PatchMessage(c, rules, context, m, host).headers)
  {
    hide ParseMessage, PatchMessage, PatchedMessage, HostFor, Answer, Survives;
    forall host | PatchMessage(c, rules, context, m, host).changed
      ensures (forall result | Answer(c, rules, context, payload, m, host, true, result) ::
                 ParseMessage(result) == Some(PatchedMessage(c, rules, context, m, host)))
              <==> Survives(m.startLine, PatchMessage(c, rules, context, m, host).headers)
    {
      AnswersReadBackIff(c, rules, context, payload, m, host);
    }
    forall host, result | Answer(c, rules, context, payload, m, host, true, result)
      ensures PatchMessage(c, rules, context, m, host).changed
    {
      var order := AnswerParts(c, rules, context, payload, m, host, result);
    }
  }

  lemma AnswersReadBackIff(c: PatchEngine.Config, rules: seq<Rule>, context: ProtocolContext, payload: string,
                           m: Message, host: string)
    requires ParseMessage(payload) == Some(m) && RulesLfFree(rules) && PatchMessage(c, rules, context, m, host).changed
    ensures (forall result | Answer(c, rules, context, payload, m, host, true, result) ::
               ParseMessage(result) == Some(PatchedMessage(c, rules, context, m, host)))
            <==> Survives(m.startLine, PatchMessage(c, rules, context, m, host).headers)
  {
    hide ParseMessage, PatchMessage, Printed, Rebuilt, Survives, Answer, StartsMessage;
    var p := PatchMessage(c, rules, context, m, host);
    forall order | IsOrder(order, p.headers)
      ensures Answer(c, rules, context, payload, m, host, true, Printed(m.startLine, order, p.headers, p.body))
    {
      PrintedIsAnswer(c, rules, context, payload, m, host, order);
    }
    var someOrder := SomeOrder(p.headers);
    PrintedIsAnswer(c, rules, context, payload, m, host, someOrder);
    ParsedStartsMessage(payload);
    RoundTripIff(m, p.headers, p.body);
    if Survives(m.startLine, p.headers) {
      forall result | Answer(c, rules, context, payload, m, host, true, result)
        ensures ParseMessage(result) == Some(PatchedMessage(c, rules, context, m, host))
      {
        var order := AnswerParts(c, rules, context, payload, m, host, result);
      }
    }
  }

  /** Payloads and rules for which it holds before anything is known of the patch: every header of the
      payload, and every header a rule sets, is sound also on a last line. */
  lemma SoundInputsRoundTrip(c: PatchEngine.Config, rules: seq<Rule>, context: ProtocolContext, payload: string,
                             result: string)
    returns (m: Message, host: string)
    requires Outcome(c, rules, context, payload, true, result) && RulesLfFree(rules)
    requires var headers := ParseMessage(payload).value.headers;
             forall name | name in headers :: Sound(name, headers[name], true)
    requires !IsLengthLine(ParseMessage(payload).value.startLine)
    requires forall i, name | 0 <= i < |rules| && name in rules[i].action.headerSet ::
               Sound(name, rules[i].action.headerSet[name], true)
    ensures ParseMessage(payload) == Some(m) && HostFor(context, m.headers, host)
    ensures ParseMessage(result) == Some(PatchedMessage(c, rules, context, m, host))
  {
    hide Outcome, ParseMessage, PatchMessage, Printed, HostFor, Sound, StartsMessage, Rebuilt;
    var order;
    m, host, order := OutcomeParts(c, rules, context, payload, result);
    var p := PatchMessage(c, rules, context, m, host);
    PatchedIsSound(c, rules, context, m, host);
    SoundSurvives(m.startLine, p.headers);
    ParsedStartsMessage(payload);
    RoundTripIff(m, p.headers, p.body);
  }

  lemma PatchedIsSound(c: PatchEngine.Config, rules: seq<Rule>, context: ProtocolContext, m: Message, host: string)
    requires forall name | name in m.headers :: Sound(name, m.headers[name], true)
    requires forall i, name | 0 <= i < |rules| && name in rules[i].action.headerSet ::
               Sound(name, rules[i].action.headerSet[name], true)
    ensures var headers := PatchMessage(c, rules, context, m, host).headers;
            forall name | name in headers :: Sound(name, headers[name], true)
  {
    hide Sound, PatchEngine.HttpPipeline;
    var sound := (name: string, value: string) => Sound(name, value, true);
    ProxyHeaderIsSound();
    assert AllEntries(m.headers, sound);
    assert forall i | 0 <= i < |rules| :: AllEntries(rules[i].action.headerSet, sound);
    PatchEngine.HttpPipelineEntries(c, rules, Some(RuleContext(context, m, host)),
      if m.Request? then PatchEngine.REQUEST_SUFFIX else PatchEngine.RESPONSE_SUFFIX,
      HttpModel(m.headers, m.body, false), sound);
  }

  lemma SoundSurvives(startLine: string, headers: HeaderMap)
    requires !IsLengthLine(startLine) && forall name | name in headers :: Sound(name, headers[name], true)
    ensures Survives(startLine, headers)
  {
    hide IsLengthLine, IsLengthName, StripCr, SkipSpace, HasLength;
    forall name | name in headers ensures Sound(name, headers[name], HasLength(headers)) {
      assert Sound(name, headers[name], true);
    }
  }

  lemma ProxyHeaderIsSound()
    ensures Sound(PatchEngine.PROXY_NAME, PatchEngine.PROXY_VALUE, true)
  {
    hide SkipSpace;
    assert PatchEngine.PROXY_VALUE[0] == 'n';
    SkipNothing(PatchEngine.PROXY_VALUE);
  }

  // ---------- two messages that change on the way ----------

  const CR_HEADERS: HeaderMap := map[LENGTH_NAME := "0"]["X" := "a\r"]
  const CR_PAYLOAD: string := EXAMPLE_START + CRLF + "X: a\r" + CRLF + "Content-Length: 0" + HEAD_END
  const CR_CONFIG: PatchEngine.Config := EXAMPLE_CONFIG.(addProxyHeader := true)
  const CR_PATCHED: HeaderMap := CR_HEADERS[PatchEngine.PROXY_NAME := PatchEngine.PROXY_VALUE]
  const CR_RESULT: string :=
    EXAMPLE_START + CRLF + "Content-Length: 0" + CRLF + "X-Network-Proxy: network_proxy" + CRLF + "X: a\r" + HEAD_END

  /** A header value that ends in CR, and only the proxy header to add: an answer in which that header is
      printed last is read without the CR. */
  lemma TrailingCrExample()
    ensures ParseMessage(CR_PAYLOAD) == Some(EXAMPLE_MESSAGE.(headers := CR_HEADERS))
    ensures Outcome(CR_CONFIG, [], EXAMPLE_CONTEXT, CR_PAYLOAD, true, CR_RESULT)
    ensures ParseMessage(CR_RESULT) == Some(EXAMPLE_MESSAGE.(headers := CR_PATCHED["X" := "a"]))
  {
    hide ParseMessage, PatchMessage, Printed, Answer, IsLengthLine, StartsMessage;
    var m := EXAMPLE_MESSAGE.(headers := CR_HEADERS);
    ExampleStarts();
    CrPayloadIsRead();
    CrResultIsRead();
    OnlyProxyHeader(CR_CONFIG, EXAMPLE_CONTEXT, m, "host");
    assert PatchEngine.PROXY_NAME !in CR_HEADERS by { ProxyIsNoLengthName(); LengthNameIsLengthName(); }
    PrintedIsAnswer(CR_CONFIG, [], EXAMPLE_CONTEXT, CR_PAYLOAD, m, "host", [LENGTH_NAME, PatchEngine.PROXY_NAME, "X"]);
    assert HostFor(EXAMPLE_CONTEXT, m.headers, "host");
  }

  lemma ExampleStarts()
    ensures StartsMessage(EXAMPLE_MESSAGE) && !IsLengthLine(EXAMPLE_START) && !IsLengthName("X")
  {
    ExampleNames();
    ExampleStartLine();
  }

  lemma CrValues()
    ensures SkipSpace("a\r") == "a\r" && SkipSpace("0") == "0" && StripCr("a\r") == "a" && Decimal(0) == "0"
  {
    hide SkipSpace, Decimal, StripCr;
    SoundCrValue();
    SoundZero();
    StrippedCrValue();
  }

  lemma SoundCrValue()
    ensures SkipSpace("a\r") == "a\r"
  {
    BareStart("a\r");
  }

  lemma SoundZero()
    ensures SkipSpace("0") == "0" && Decimal(0) == "0"
  {
    BareStart("0");
  }

  lemma StrippedCrValue()
    ensures StripCr("a\r") == "a"
  {
  }

  lemma BareStart(value: string)
    requires value != "" && value[0] > ' '
    ensures SkipSpace(value) == value
  {
  }

  /** Headers that hold no Content-Length but one of the body size are not changed by collapsing. */
  lemma CollapsedUpdate(headers: HeaderMap, n: nat, name: string, value: string)
    requires Collapsed(headers, n) == headers && !IsLengthName(name)
    ensures Collapsed(headers[name := value], n) == headers[name := value]
  {
    hide IsLengthName, Decimal;
    LengthNameIsLengthName();
    var updated := headers[name := value];
    forall other ensures other in Collapsed(updated, n) <==> other in updated {
      assert other in Collapsed(headers, n) <==> other in headers;
    }
    forall other | other in updated ensures Collapsed(updated, n)[other] == updated[other] {
      if other != name { assert Collapsed(headers, n)[other] == headers[other]; }
    }
  }

  lemma LengthAlone(n: nat)
    ensures Collapsed(map[LENGTH_NAME := Decimal(n)], n) == map[LENGTH_NAME := Decimal(n)]
    ensures FieldsReadable(map[LENGTH_NAME := Decimal(n)])
  {
    hide IsLengthName, Decimal;
    LengthNameIsLengthName();
  }

  lemma CrHeadersShape()
    ensures EntriesLfFree(CR_HEADERS) && FieldsReadable(CR_HEADERS) && HasLength(CR_HEADERS)
    ensures Collapsed(CR_HEADERS, 0) == CR_HEADERS
  {
    hide SkipSpace, IsLengthName, StripCr, Decimal, StartsMessage, IsLengthLine, Collapsed, FieldsReadable,
         EntriesLfFree;
    CrValues();
    LengthNameIsLengthName();
    ExampleStarts();
    LengthAlone(0);
    CrIsLfFree();
    NoColonInX();
    CollapsedUpdate(map[LENGTH_NAME := "0"], 0, "X", "a\r");
    UpdateReadable(map[LENGTH_NAME := "0"], "X", "a\r");
    assert LENGTH_NAME in CR_HEADERS;
  }

  lemma NoColonInX()
    ensures ':' !in "X"
  {
  }

  lemma CrIsLfFree()
    ensures EntriesLfFree(CR_HEADERS)
  {
    hide NoLf, EntriesLfFree;
    LfFreeTexts();
    LfFreeEntry(map[], LENGTH_NAME, "0");
    LfFreeEntry(map[LENGTH_NAME := "0"], "X", "a\r");
  }

  lemma LfFreeTexts()
    ensures NoLf("X") && NoLf("a\r") && NoLf(LENGTH_NAME) && NoLf("0") && EntriesLfFree(map[])
    ensures NoLf(PatchEngine.PROXY_NAME) && NoLf(PatchEngine.PROXY_VALUE)
  {
  }

  lemma LfFreeEntry(headers: HeaderMap, name: string, value: string)
    requires EntriesLfFree(headers) && NoLf(name) && NoLf(value)
    ensures EntriesLfFree(headers[name := value])
  {
    hide NoLf;
  }

  lemma CrPayloadIsRead()
    ensures ParseMessage(CR_PAYLOAD) == Some(EXAMPLE_MESSAGE.(headers := CR_HEADERS))
  {
    hide ParseMessage, IsLengthLine, IsLengthName, StartsMessage, StripCr, Joined, LengthLine, EntriesLfFree,
         FieldsReadable, HasLength, Collapsed;
    var order := ["X", LENGTH_NAME];
    ExampleStarts();
    LengthNameIsLengthName();
    CrHeadersShape();
    assert IsOrder(order, CR_HEADERS);
    SentReadsBack(EXAMPLE_MESSAGE, order, CR_HEADERS, "");
    assert SentLines(EXAMPLE_START, order, CR_HEADERS, 0) == [EXAMPLE_START, "X" + ": " + "a\r", LengthLine(0)];
    CrPayloadText();
  }

  lemma CrPayloadText()
    ensures Joined([EXAMPLE_START, "X" + ": " + "a\r", LengthLine(0)]) + HEAD_END + "" == CR_PAYLOAD
  {
    var a, b, c := EXAMPLE_START, "X" + ": " + "a\r", LengthLine(0);
    assert LengthLine(0) == "Content-Length: 0";
    hide LengthLine;
    JoinedThree(a, b, c);
    assert b == "X: a\r";
  }

  lemma CrPatchedShape()
    ensures EntriesLfFree(CR_PATCHED) && FieldsReadable(CR_PATCHED) && HasLength(CR_PATCHED)
    ensures IsOrder([LENGTH_NAME, PatchEngine.PROXY_NAME, "X"], CR_PATCHED)
  {
    hide IsLengthName, SkipSpace, EntriesLfFree, FieldsReadable;
    CrHeadersShape();
    LengthNameIsLengthName();
    ProxyIsNoLengthName();
    ProxyHeaderIsSound();
    UpdateReadable(CR_HEADERS, PatchEngine.PROXY_NAME, PatchEngine.PROXY_VALUE);
    CrPatchedIsLfFree();
    CrPatchedOrder();
    assert LENGTH_NAME in CR_PATCHED;
  }

  lemma CrPatchedIsLfFree()
    ensures EntriesLfFree(CR_PATCHED)
  {
    hide NoLf, EntriesLfFree;
    LfFreeTexts();
    CrIsLfFree();
    LfFreeEntry(CR_HEADERS, PatchEngine.PROXY_NAME, PatchEngine.PROXY_VALUE);
  }

  lemma CrPatchedOrder()
    ensures IsOrder([LENGTH_NAME, PatchEngine.PROXY_NAME, "X"], CR_PATCHED)
  {
    var order := [LENGTH_NAME, PatchEngine.PROXY_NAME, "X"];
    assert CR_PATCHED.Keys == {order[0], order[1], order[2]};
    assert |order[0]| == 14 && |order[1]| == 15 && |order[2]| == 1;
  }

  lemma CrPatchedIsCollapsed()
    ensures Collapsed(CR_PATCHED["X" := "a"], 0) == CR_PATCHED["X" := "a"]
  {
    hide IsLengthName, Decimal, StartsMessage, IsLengthLine, Collapsed, EntriesLfFree, FieldsReadable, HasLength;
    CrHeadersShape();
    ExampleStarts();
    ProxyIsNoLengthName();
    CollapsedUpdate(CR_HEADERS, 0, PatchEngine.PROXY_NAME, PatchEngine.PROXY_VALUE);
    CollapsedUpdate(CR_PATCHED, 0, "X", "a");
  }

  lemma CrResultIsRead()
    ensures IsOrder([LENGTH_NAME, PatchEngine.PROXY_NAME, "X"], CR_PATCHED)
    ensures Printed(EXAMPLE_START, [LENGTH_NAME, PatchEngine.PROXY_NAME, "X"], CR_PATCHED, "") == CR_RESULT
    ensures ParseMessage(CR_RESULT) == Some(EXAMPLE_MESSAGE.(headers := CR_PATCHED["X" := "a"]))
  {
    hide ParseMessage, IsLengthLine, StartsMessage, Printed, EntriesLfFree, FieldsReadable, HasLength, Collapsed,
         AsSent, IsOrder;
    ExampleStarts();
    CrPatchedShape();
    CrPatchedIsSent();
    CrPatchedIsCollapsed();
    CrPatchedIsPrinted();
    SentReadsBack(EXAMPLE_MESSAGE, [LENGTH_NAME, PatchEngine.PROXY_NAME, "X"], CR_PATCHED, "");
  }

  lemma CrPatchedIsSent()
    ensures IsOrder([LENGTH_NAME, PatchEngine.PROXY_NAME, "X"], CR_PATCHED)
    ensures AsSent([LENGTH_NAME, PatchEngine.PROXY_NAME, "X"], CR_PATCHED) == CR_PATCHED["X" := "a"]
  {
    hide IsLengthName, StripCr, SkipSpace, HasLength, EntriesLfFree, FieldsReadable, IsLengthLine, StartsMessage,
         AsSent, IsOrder;
    ExampleStarts();
    CrValues();
    CrPatchedShape();
    CrValueInPatched();
    LastIsSent([LENGTH_NAME, PatchEngine.PROXY_NAME, "X"], CR_PATCHED, "X");
  }

  lemma CrValueInPatched()
    ensures "X" in CR_PATCHED && CR_PATCHED["X"] == "a\r"
  {
    assert |PatchEngine.PROXY_NAME| == 15 && |"X"| == 1;
  }

  lemma LastIsSent(order: seq<string>, headers: HeaderMap, last: string)
    requires IsOrder(order, headers) && HasLength(headers) && order != [] && order[|order| - 1] == last
    requires last in headers && !IsLengthName(last)
    ensures AsSent(order, headers) == headers[last := StripCr(headers[last])]
  {
    hide IsLengthName, StripCr, HasLength;
  }

  lemma CrPatchedIsPrinted()
    ensures IsOrder([LENGTH_NAME, PatchEngine.PROXY_NAME, "X"], CR_PATCHED)
    ensures Printed(EXAMPLE_START, [LENGTH_NAME, PatchEngine.PROXY_NAME, "X"], CR_PATCHED, "") == CR_RESULT
  {
    hide IsLengthLine, IsLengthName, StartsMessage, Joined, LengthLine, EntriesLfFree, FieldsReadable, HasLength;
    ExampleStarts();
    LengthNameIsLengthName();
    ProxyIsNoLengthName();
    CrPatchedShape();
    assert SentLines(EXAMPLE_START, [LENGTH_NAME, PatchEngine.PROXY_NAME, "X"], CR_PATCHED, 0)
        == [EXAMPLE_START, LengthLine(0), PatchEngine.PROXY_NAME + ": " + PatchEngine.PROXY_VALUE, "X" + ": " + "a\r"];
    CrResultText();
  }

  lemma CrResultText()
    ensures Joined([EXAMPLE_START, LengthLine(0), PatchEngine.PROXY_NAME + ": " + PatchEngine.PROXY_VALUE,
                    "X" + ": " + "a\r"]) + HEAD_END + "" == CR_RESULT
  {
    var a, b, d := EXAMPLE_START, LengthLine(0), "X" + ": " + "a\r";
    var c := PatchEngine.PROXY_NAME + ": " + PatchEngine.PROXY_VALUE;
    assert LengthLine(0) == "Content-Length: 0";
    hide LengthLine;
    JoinedFour(a, b, c, d);
    assert c == "X-Network-Proxy: network_proxy" && d == "X: a\r";
  }

  lemma JoinedFour(a: string, b: string, c: string, d: string)
    ensures Joined([a, b, c, d]) + HEAD_END + "" == a + CRLF + b + CRLF + c + CRLF + d + HEAD_END
  {
    var three := Joined([b, c, d]);
    JoinedThree(b, c, d);
    assert [a, b, c, d][1..] == [b, c, d];
    assert Joined([a, b, c, d]) + HEAD_END + "" == a + CRLF + (three + HEAD_END + "");
  }

  const COLON_HEADERS: HeaderMap := map["a:b" := "c"]
  const COLON_RESULT: string := EXAMPLE_START + CRLF + "a:b: c" + CRLF + "Content-Length: 0" + HEAD_END

  /** A rule that a rule file can hold, for a header name with a colon: the only answer is read with
      another name and another value. */
  lemma ColonExample()
    ensures IsOrder(["a:b"], COLON_HEADERS) && RuleText.ArePrintOrders([["a:b"]], [HeaderRule(COLON_HEADERS)])
    ensures RuleDsl.Load(RuleText.Print([HeaderRule(COLON_HEADERS)], [["a:b"]])).rules == [HeaderRule(COLON_HEADERS)]
    ensures Outcome(EXAMPLE_CONFIG, [HeaderRule(COLON_HEADERS)], EXAMPLE_CONTEXT, EXAMPLE_PAYLOAD, true, COLON_RESULT)
    ensures ParseMessage(COLON_RESULT) ==
              Some(EXAMPLE_MESSAGE.(headers := map["a" := "b: c", LENGTH_NAME := "0"]))
  {
    hide ParseMessage, PatchMessage, Printed, Answer, IsLengthLine, StartsMessage, RuleDsl.Load, RuleText.Print,
         RuleText.Printable;
    var rule := HeaderRule(COLON_HEADERS);
    ExampleStarts();
    ColonRuleIsPrintable();
    RuleText.PrintThenLoad([rule], [["a:b"]]);
    ExampleParsed();
    ColonResultIsRead();
    assert "a:b" in COLON_HEADERS;
    HeaderRulePatched(COLON_HEADERS);
    assert NoLf("a:b") && NoLf("c");
    PrintedIsAnswer(EXAMPLE_CONFIG, [rule], EXAMPLE_CONTEXT, EXAMPLE_PAYLOAD, EXAMPLE_MESSAGE, "host", ["a:b"]);
    assert HostFor(EXAMPLE_CONTEXT, EXAMPLE_MESSAGE.headers, "host");
  }

  lemma ColonRuleIsPrintable()
    ensures RuleText.Printable(HeaderRule(COLON_HEADERS))
  {
    hide RuleText.Printable;
    assert RuleText.CleanText("r") && RuleText.CleanText("a:b") && RuleText.CleanText("c");
    RuleText.EmptyRulePrintable("r");
    RuleText.AssignPrintable(RuleDsl.EmptyRule("r"), RuleDsl.HeaderSet("a:b"), "c");
  }

  lemma ColonResultIsRead()
    ensures Printed(EXAMPLE_START, ["a:b"], COLON_HEADERS, "") == COLON_RESULT
    ensures ParseMessage(COLON_RESULT) ==
              Some(EXAMPLE_MESSAGE.(headers := map["a" := "b: c", LENGTH_NAME := "0"]))
  {
    hide ParseMessage, IsLengthLine, IsLengthName, StartsMessage, Joined, LengthLine, HeadersOf, HasLength;
    ExampleStarts();
    ColonNames();
    assert FieldLines(["a:b"], COLON_HEADERS, 0) == ["a:b" + ": " + "c", LengthLine(0)];
    SentIsParsed(EXAMPLE_MESSAGE, ["a:b"], COLON_HEADERS, "");
    ColonFieldsAreRead();
    ColonText();
    assert SentLines(EXAMPLE_START, ["a:b"], COLON_HEADERS, 0) == [EXAMPLE_START, "a:b" + ": " + "c", LengthLine(0)];
  }

  lemma ColonNames()
    ensures !IsLengthName("a:b") && NoLf("a:b") && NoLf("c") && !HasLength(COLON_HEADERS)
  {
  }

  lemma ColonFieldsAreRead()
    ensures HeadersOf(["a:b" + ": " + "c", LengthLine(0)]) == map["a" := "b: c", LENGTH_NAME := "0"]
  {
    hide ParseHeader, Decimal, HeadersOf, LengthLine, SkipSpace, StripCr;
    ColonLineIsRead();
    ParseLengthLine(0);
    CrValues();
    HeadersOfTwo("a:b" + ": " + "c", LengthLine(0), Header("a", "b: c"), Header(LENGTH_NAME, "0"));
  }

  lemma HeadersOfTwo(first: string, second: string, g: Header, h: Header)
    requires ParseHeader(first) == Some(g) && ParseHeader(second) == Some(h)
    ensures HeadersOf([first, second]) == map[][g.name := g.value][h.name := h.value]
  {
    hide ParseHeader;
    assert [first, second][..1] == [first] && [first][..0] == [];
    assert HeadersOf([]) == map[];
    assert HeadersOf([first]) == map[][g.name := g.value];
  }

  lemma ColonLineIsRead()
    ensures ParseHeader("a:b" + ": " + "c") == Some(Header("a", "b: c"))
  {
    hide Find, At;
    var line := "a:b" + ": " + "c";
    AtChar(line, ':', 0);
    AtChar(line, ':', 1);
    FindIs(line, ":", 0, 1);
    assert line[..1] == "a" && line[2..] == "b: c";
    SkipNothing("b: c");
  }

  lemma ColonText()
    ensures Joined([EXAMPLE_START, "a:b" + ": " + "c", LengthLine(0)]) + HEAD_END + "" == COLON_RESULT
  {
    var a, b, c := EXAMPLE_START, "a:b" + ": " + "c", LengthLine(0);
    assert LengthLine(0) == "Content-Length: 0";
    hide LengthLine;
    JoinedThree(a, b, c);
    assert b == "a:b: c";
  }

  // ---------- patching twice ----------

  lemma ProxyIsNoLengthName()
    ensures !IsLengthName(PatchEngine.PROXY_NAME)
  {
    assert ToLower(PatchEngine.PROXY_NAME[..14])[0] == 'x';
    assert ToLower(LENGTH_NAME)[0] == 'c';
  }

  /** The proxy header is sent as it is and read as it is. */
  lemma ProxyHeaderSurvives(order: seq<string>, headers: HeaderMap, n: nat)
    requires IsOrder(order, headers)
    requires PatchEngine.PROXY_NAME in headers && headers[PatchEngine.PROXY_NAME] == PatchEngine.PROXY_VALUE
    ensures var read := Collapsed(AsSent(order, headers), n);
            PatchEngine.PROXY_NAME in read && read[PatchEngine.PROXY_NAME] == PatchEngine.PROXY_VALUE
  {
    hide StartsWithIgnoreCase, Collapsed;
    ProxyIsNoLengthName();
    CollapsedKeeps(AsSent(order, headers), n, PatchEngine.PROXY_NAME);
  }

  lemma NothingToPatch(c: PatchEngine.Config, rules: seq<Rule>, context: ProtocolContext, payload: string,
                       changed: bool, result: string)
    requires Outcome(c, rules, context, payload, changed, result)
    requires ParseMessage(payload).Some? ==>
               forall host :: !PatchMessage(c, rules, context, ParseMessage(payload).value, host).changed
    ensures !changed && result == payload
  {
    hide ParseMessage, PatchMessage, Sent, HostFor;
  }

  /** With only the proxy header configured, patching what patching produced answers false and leaves
      the payload as it is. */
  lemma ProxyHeaderOnce(c: PatchEngine.Config, context: ProtocolContext, payload: string, result: string,
                        changedAgain: bool, resultAgain: string)
    requires c.addProxyHeader && !c.appendDebugSuffix
    requires Outcome(c, [], context, payload, true, result)
    requires Outcome(c, [], context, result, changedAgain, resultAgain)
    ensures !changedAgain && resultAgain == result
  {
    hide Outcome, ParseMessage, PatchMessage, HostFor, AsSent, Collapsed, HeadersOf, FieldLines, IsLengthLine;
    var m, host, order := PatchedReadsBack(c, [], context, payload, result);
    var p := PatchMessage(c, [], context, m, host);
    OnlyProxyHeader(c, context, m, host);
    ParsedIsLfFree(payload);
    ProxyKeepsReadable(m.headers);
    if ParseMessage(result).Some? {
      ProxyHeaderSurvives(order, p.headers, |p.body|);
      forall host' ensures !PatchMessage(c, [], context, ParseMessage(result).value, host').changed {
        OnlyProxyHeader(c, context, ParseMessage(result).value, host');
      }
    }
    NothingToPatch(c, [], context, result, changedAgain, resultAgain);
  }

  lemma ProxyKeepsReadable(headers: HeaderMap)
    requires Readable(headers)
    ensures FieldsReadable(headers[PatchEngine.PROXY_NAME := PatchEngine.PROXY_VALUE])
  {
    hide SkipSpace, IsLengthName;
    ProxyHeaderIsSound();
    ProxyIsNoLengthName();
  }

  lemma OnlyProxyHeader(c: PatchEngine.Config, context: ProtocolContext, m: Message, host: string)
    requires c.addProxyHeader && !c.appendDebugSuffix
    ensures var p := PatchMessage(c, [], context, m, host);
            && p.headers == m.headers[PatchEngine.PROXY_NAME := PatchEngine.PROXY_VALUE]
            && p.body == m.body
            && (p.changed <==> !(PatchEngine.PROXY_NAME in m.headers
                                 && m.headers[PatchEngine.PROXY_NAME] == PatchEngine.PROXY_VALUE))
  {
    hide SkipSpace, PatchEngine.HttpPipeline, RuleContext;
    PatchEngine.OnlyProxyHeader(c, RuleContext(context, m, host),
      if m.Request? then PatchEngine.REQUEST_SUFFIX else PatchEngine.RESPONSE_SUFFIX,
      HttpModel(m.headers, m.body, false));
  }

}
