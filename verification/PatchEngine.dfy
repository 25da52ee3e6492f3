/** The patch engine: rules first, then the configured stages (src/patch/patch_engine.cpp). */
module PatchEngine {
  import opened Text
  import opened RuleModel
  import RuleEngine
  import Replace
  import Hex

  datatype Config = Config(
    addProxyHeader: bool, appendDebugSuffix: bool, enableTextPatch: bool, enableHexPatch: bool,
    outboundFind: string, outboundReplace: string, inboundFind: string, inboundReplace: string,
    outboundFindHex: string, outboundReplaceHex: string, inboundFindHex: string, inboundReplaceHex: string)

  const PROXY_NAME: string := "X-Network-Proxy"
  const PROXY_VALUE: string := "network_proxy"
  const REQUEST_SUFFIX: string := "\n[patched-by-network-proxy-request]"
  const RESPONSE_SUFFIX: string := "\n[patched-by-network-proxy-response]"
  const NO_CONTEXT: MatchContext := MatchContext("", "", "", "", "", "", 0)

  // ---------- byte payloads ----------

  function TextStage(c: Config, outbound: bool, p: Patched): Patched {
    if !c.enableTextPatch then p
    else if outbound then Substitute(p, c.outboundFind, c.outboundReplace)
    else Substitute(p, c.inboundFind, c.inboundReplace)
  }

  function HexStage(c: Config, outbound: bool, p: Patched): Patched {
    if !c.enableHexPatch then p
    else if outbound then SubstituteHex(p, c.outboundFindHex, c.outboundReplaceHex)
    else SubstituteHex(p, c.inboundFindHex, c.inboundReplaceHex)
  }

  /** The matching rules in order, then the text stage, then the hex stage. */
  function TransportPipeline(c: Config, rules: seq<Rule>, context: MatchContext, payload: string): Patched {
    var outbound := context.direction == "outbound";
    HexStage(c, outbound, TextStage(c, outbound, TransportActions(Selected(rules, context), Patched(payload, false))))
  }

  // ---------- HTTP messages ----------

  /** Rules when there is a context, the proxy header, then the debug suffix on a non-empty body. */
  function HttpPipeline(c: Config, rules: seq<Rule>, context: Option<MatchContext>, suffix: string, m: HttpModel)
    : HttpModel
  {
    var ruled := if context.Some? then HttpActions(Selected(rules, context.value), m) else m;
    var marked := if c.addProxyHeader then SetHeaders(ruled, map[PROXY_NAME := PROXY_VALUE]) else ruled;
    if c.appendDebugSuffix && marked.body != "" then marked.(body := marked.body + suffix, changed := true)
    else marked
  }

  class Engine {
    const config: Config
    var ruleEngine: RuleEngine.Engine?

    constructor (config: Config)
      ensures this.config == config && ruleEngine == null
    {
      this.config := config;
      ruleEngine := null;
    }

    method SetRuleEngine(engine: RuleEngine.Engine?)
      modifies this
      ensures ruleEngine == engine
      ensures ActiveRules() == if engine == null then [] else engine.rules
    {
      ruleEngine := engine;
    }

    function ActiveRules(): seq<Rule>
      reads this, ruleEngine
    {
      if ruleEngine == null then [] else ruleEngine.rules
    }

    method ApplyTransportPatch(payload: string, protocol: string, direction: string, context: Option<MatchContext>)
      returns (result: string, changed: bool)
      ensures var local := match context
                           case Some(x) => x.(protocol := protocol, direction := direction)
                           case None => MatchContext(protocol, direction, "", "", "", "", 0);
              Patched(result, changed) == TransportPipeline(config, ActiveRules(), local, payload)
    {
      hide Matches, Selected, TransportActions, TextStage, HexStage;
      var outbound := direction == "outbound";
      var local := (if context.Some? then context.value else NO_CONTEXT)
        .(protocol := protocol, direction := direction);
      result, changed := payload, false;
      NothingSelected(local, Patched(payload, false), HttpModel(map[], "", false));
      if ruleEngine != null {
        result, changed := ruleEngine.ApplyTransport(payload, local);
      }
      var textCount, hexCount;
      result, textCount := ConfiguredText(result, outbound, changed);
      result, hexCount := ConfiguredHex(result, outbound, changed || textCount > 0);
      changed := changed || textCount + hexCount != 0;
    }

    /** The text stage; `flag` is what has been reported so far. */
    method ConfiguredText(payload: string, outbound: bool, ghost flag: bool) returns (result: string, count: nat)
      ensures Patched(result, flag || count > 0) == TextStage(config, outbound, Patched(payload, flag))
    {
      hide Replace.ReplaceAll, Replace.Occurrences;
      result, count := payload, 0;
      if config.enableTextPatch {
        var find := if outbound then config.outboundFind else config.inboundFind;
        var replacement := if outbound then config.outboundReplace else config.inboundReplace;
        Replace.NoOccurrence(payload, find, replacement);
        if find != "" {
          result, count := Replace.ReplaceAllInPlace(payload, find, replacement);
        }
      }
    }

    /** The hex stage; it is skipped when either text does not decode or the pattern is empty. */
    method ConfiguredHex(payload: string, outbound: bool, ghost flag: bool) returns (result: string, count: nat)
      ensures Patched(result, flag || count > 0) == HexStage(config, outbound, Patched(payload, flag))
    {
      hide Hex.Decode, Replace.ReplaceAll, Replace.Occurrences;
      result, count := payload, 0;
      if config.enableHexPatch {
        var find := Hex.DecodeForPatches(if outbound then config.outboundFindHex else config.inboundFindHex);
        var replacement := Hex.DecodeForPatches(
          if outbound then config.outboundReplaceHex else config.inboundReplaceHex);
        if find.Some? && replacement.Some? {
          Replace.NoOccurrence(payload, find.value, replacement.value);
          if find.value != "" {
            result, count := Replace.ReplaceAllInPlace(payload, find.value, replacement.value);
          }
        }
      }
    }

    /** The body that `apply_request_patch` and `apply_response_patch` share; they differ in `suffix`. */
    method ApplyHttpPatch(headers: HeaderMap, body: string, context: Option<MatchContext>, suffix: string)
      returns (newHeaders: HeaderMap, newBody: string, changed: bool)
      ensures HttpModel(newHeaders, newBody, changed)
           == HttpPipeline(config, ActiveRules(), context, suffix, HttpModel(headers, body, false))
    {
      hide Matches, Selected, HttpActions;
      newHeaders, newBody, changed := headers, body, false;
      NothingSelected(if context.Some? then context.value else NO_CONTEXT,
        Patched("", false), HttpModel(headers, body, false));
      if ruleEngine != null && context.Some? {
        newHeaders, newBody, changed := ruleEngine.ApplyHttp(headers, body, context.value);
      }
      if config.addProxyHeader {
        if PROXY_NAME !in newHeaders || newHeaders[PROXY_NAME] != PROXY_VALUE {
          assert PROXY_NAME in map[PROXY_NAME := PROXY_VALUE];
          newHeaders := newHeaders[PROXY_NAME := PROXY_VALUE];
          changed := true;
        } else {
          assert newHeaders + map[PROXY_NAME := PROXY_VALUE] == newHeaders;
        }
      }
      if config.appendDebugSuffix && newBody != "" {
        newBody := newBody + suffix;
        changed := true;
      }
    }

    method ApplyRequestPatch(headers: HeaderMap, body: string, context: Option<MatchContext>)
      returns (newHeaders: HeaderMap, newBody: string, changed: bool)
      ensures HttpModel(newHeaders, newBody, changed)
           == HttpPipeline(config, ActiveRules(), context, REQUEST_SUFFIX, HttpModel(headers, body, false))
    {
      newHeaders, newBody, changed := ApplyHttpPatch(headers, body, context, REQUEST_SUFFIX);
    }

    method ApplyResponsePatch(headers: HeaderMap, body: string, context: Option<MatchContext>)
      returns (newHeaders: HeaderMap, newBody: string, changed: bool)
      ensures HttpModel(newHeaders, newBody, changed)
           == HttpPipeline(config, ActiveRules(), context, RESPONSE_SUFFIX, HttpModel(headers, body, false))
    {
      newHeaders, newBody, changed := ApplyHttpPatch(headers, body, context, RESPONSE_SUFFIX);
    }
  }

  lemma SubstituteHexUnchanged(p: Patched, findHex: string, replaceHex: string)
    requires !SubstituteHex(p, findHex, replaceHex).changed
    ensures SubstituteHex(p, findHex, replaceHex) == p
  {
    hide Substitute;
    match (Hex.Decode(findHex), Hex.Decode(replaceHex))
    case (Some(find), Some(replacement)) => SubstituteUnchanged(p, find, replacement);
    case _ =>
  }

  lemma TextStageUnchanged(c: Config, outbound: bool, p: Patched)
    requires !TextStage(c, outbound, p).changed
    ensures TextStage(c, outbound, p) == p
  {
    hide Substitute;
    if c.enableTextPatch {
      if outbound { SubstituteUnchanged(p, c.outboundFind, c.outboundReplace); }
      else { SubstituteUnchanged(p, c.inboundFind, c.inboundReplace); }
    }
  }

  /** A false reply means the payload is untouched. */
  lemma TransportPipelineUnchanged(c: Config, rules: seq<Rule>, context: MatchContext, payload: string)
    requires !TransportPipeline(c, rules, context, payload).changed
    ensures TransportPipeline(c, rules, context, payload).payload == payload
  {
    hide TextStage, SubstituteHex, TransportActions, Selected;
    var outbound := context.direction == "outbound";
    var ruled := TransportActions(Selected(rules, context), Patched(payload, false));
    var texted := TextStage(c, outbound, ruled);
    if c.enableHexPatch {
      if outbound { SubstituteHexUnchanged(texted, c.outboundFindHex, c.outboundReplaceHex); }
      else { SubstituteHexUnchanged(texted, c.inboundFindHex, c.inboundReplaceHex); }
    }
    TextStageUnchanged(c, outbound, ruled);
    TransportUnchanged(Selected(rules, context), Patched(payload, false));
  }

  lemma SplitIsSubstituted(p: Patched, find: string, replacement: string, pieces: seq<string>)
    requires find != "" && Replace.IsLeftmostSplit(pieces, p.payload, find)
    ensures Substitute(p, find, replacement) == Patched(Replace.Join(pieces, replacement), p.changed || |pieces| > 1)
  {
    Replace.SplitUnique(pieces, p.payload, find);
  }

  /** The configured stages: outbound payloads have the outbound text between their pieces replaced, all
      others the inbound text. */
  lemma TextBetweenPieces(c: Config, context: MatchContext, payload: string, pieces: seq<string>)
    requires c.enableTextPatch && !c.enableHexPatch
    ensures context.direction == "outbound" && c.outboundFind != ""
            && Replace.IsLeftmostSplit(pieces, payload, c.outboundFind) ==>
              TransportPipeline(c, [], context, payload) ==
              Patched(Replace.Join(pieces, c.outboundReplace), |pieces| > 1)
    ensures context.direction != "outbound" && c.inboundFind != ""
            && Replace.IsLeftmostSplit(pieces, payload, c.inboundFind) ==>
              TransportPipeline(c, [], context, payload) ==
              Patched(Replace.Join(pieces, c.inboundReplace), |pieces| > 1)
  {
    hide Substitute, Selected, TransportActions, Replace.IsLeftmostSplit;
    var p := Patched(payload, false);
    NothingSelected(context, p, HttpModel(map[], "", false));
    if c.outboundFind != "" && Replace.IsLeftmostSplit(pieces, payload, c.outboundFind) {
      SplitIsSubstituted(p, c.outboundFind, c.outboundReplace, pieces);
    }
    if c.inboundFind != "" && Replace.IsLeftmostSplit(pieces, payload, c.inboundFind) {
      SplitIsSubstituted(p, c.inboundFind, c.inboundReplace, pieces);
    }
  }

  /** The hex stage comes after the text stage and works on its result. */
  lemma BytesBetweenPieces(c: Config, context: MatchContext, payload: string, find: string, replacement: string,
                           pieces: seq<string>)
    requires c.enableHexPatch && find != ""
    requires context.direction == "outbound" ==>
               Hex.Renders(c.outboundFindHex, find) && Hex.Renders(c.outboundReplaceHex, replacement)
    requires context.direction != "outbound" ==>
               Hex.Renders(c.inboundFindHex, find) && Hex.Renders(c.inboundReplaceHex, replacement)
    requires var before := TransportPipeline(c.(enableHexPatch := false), [], context, payload);
             Replace.IsLeftmostSplit(pieces, before.payload, find)
    ensures var before := TransportPipeline(c.(enableHexPatch := false), [], context, payload);
            TransportPipeline(c, [], context, payload) ==
            Patched(Replace.Join(pieces, replacement), before.changed || |pieces| > 1)
  {
    hide Substitute, Selected, TransportActions, Replace.IsLeftmostSplit, Hex.Decode, Hex.Renders;
    var before := TransportPipeline(c.(enableHexPatch := false), [], context, payload);
    NothingSelected(context, Patched(payload, false), HttpModel(map[], "", false));
    SplitIsSubstituted(before, find, replacement, pieces);
    var outbound := context.direction == "outbound";
    Hex.DecodeIffRenders(if outbound then c.outboundFindHex else c.inboundFindHex, find);
    Hex.DecodeIffRenders(if outbound then c.outboundReplaceHex else c.inboundReplaceHex, replacement);
  }

  /** An empty payload stays empty through the whole pipeline. */
  lemma TransportPipelineEmpty(c: Config, rules: seq<Rule>, context: MatchContext)
    ensures TransportPipeline(c, rules, context, "") == Patched("", false)
  {
    hide Substitute, TransportActions, Selected;
    TransportKeepsEmpty(Selected(rules, context));
    forall find, replacement ensures Substitute(Patched("", false), find, replacement) == Patched("", false) {
      SubstituteEmpty(find, replacement);
    }
  }

  /** A false reply means headers and body are untouched. */
  lemma HttpPipelineUnchanged(c: Config, rules: seq<Rule>, context: Option<MatchContext>, suffix: string, m: HttpModel)
    requires !HttpPipeline(c, rules, context, suffix, m).changed
    ensures HttpPipeline(c, rules, context, suffix, m) == m
  {
    hide HttpActions, Selected;
    var ruled := if context.Some? then HttpActions(Selected(rules, context.value), m) else m;
    assert ruled.headers + map[PROXY_NAME := PROXY_VALUE] == ruled.headers || !c.addProxyHeader;
    if context.Some? {
      HttpUnchanged(Selected(rules, context.value), m);
    }
  }

  /** Every header after patching was there before, was set by a rule, or is the proxy header. */
  lemma HttpPipelineEntries(c: Config, rules: seq<Rule>, context: Option<MatchContext>, suffix: string,
                            m: HttpModel, allowed: (string, string) -> bool)
    requires AllEntries(m.headers, allowed) && allowed(PROXY_NAME, PROXY_VALUE)
    requires forall i | 0 <= i < |rules| :: AllEntries(rules[i].action.headerSet, allowed)
    ensures AllEntries(HttpPipeline(c, rules, context, suffix, m).headers, allowed)
  {
    hide HttpActions, Selected;
    if context.Some? {
      var actions := Selected(rules, context.value);
      SelectedComeFromRules(rules, context.value);
      forall i | 0 <= i < |actions| ensures AllEntries(actions[i].headerSet, allowed) {
        assert actions[i] in actions;
      }
      HttpActionsEntries(actions, m, allowed);
    }
  }

  /** Without rules and without the debug suffix, patching sets the proxy header and nothing else. */
  lemma OnlyProxyHeader(c: Config, context: MatchContext, suffix: string, m: HttpModel)
    requires c.addProxyHeader && !c.appendDebugSuffix && !m.changed
    ensures var p := HttpPipeline(c, [], Some(context), suffix, m);
            && p.headers == m.headers[PROXY_NAME := PROXY_VALUE]
            && p.body == m.body
            && (p.changed <==> !(PROXY_NAME in m.headers && m.headers[PROXY_NAME] == PROXY_VALUE))
  {
    hide Selected, HttpActions;
    NothingSelected(context, Patched("", false), m);
    SetOneHeader(m, PROXY_NAME, PROXY_VALUE);
  }

  lemma SetOneHeader(m: HttpModel, name: string, value: string)
    requires !m.changed
    ensures SetHeaders(m, map[name := value]) ==
            m.(headers := m.headers[name := value], changed := !(name in m.headers && m.headers[name] == value))
  {
    var values := map[name := value];
    assert name in values;
    assert m.headers + values == m.headers[name := value];
  }
}
