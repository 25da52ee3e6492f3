/** The whole path of a payload: pump, protocol manager, HTTP adapter, transport fallback, peer
    (src/transport/tcp_proxy_server.cpp, src/protocol/protocol_manager.cpp). */
module EndToEnd {
  import opened Text
  import opened RuleModel
  import opened Framing
  import opened HttpHead
  import opened HttpFraming
  import opened HttpAdapter
  import opened ProtocolDetector
  import opened SocketUtils
  import opened PumpModel
  import opened PumpRuns
  import PatchEngine
  import Replace
  import Hex
  import HttpRules
  import RuleDsl
  import RuleText

  /** What stays fixed while one direction of a connection is pumped. */
  datatype Settings = Settings(
    config: PatchEngine.Config, rules: seq<Rule>, adapterEnabled: bool, httpAdapterEnabled: bool,
    direction: string, host: string, remotePort: Port)

  function ContextFor(s: Settings, kind: ProtocolKind): ProtocolContext {
    ProtocolContext(kind, s.direction, s.host, "", s.remotePort, "")
  }

  predicate CanHandle(s: Settings, kind: ProtocolKind, payload: string) {
    s.adapterEnabled && s.httpAdapterEnabled && kind == Http && Contains(payload, CRLF)
  }

  /** `ProtocolManager::patch_payload`. */
  ghost predicate Structured(s: Settings, kind: ProtocolKind, payload: string, changed: bool, result: string) {
    if CanHandle(s, kind, payload)
    then Outcome(s.config, s.rules, ContextFor(s, kind), payload, changed, result)
    else !changed && result == payload
  }

  function Fallback(s: Settings, payload: string): Patched {
    PatchEngine.TransportPipeline(s.config, s.rules,
      MatchContext("tcp", s.direction, s.host, "", "", "", s.remotePort), payload)
  }

  /** `out` is something `patch_and_send` may send for `payload`. */
  ghost predicate MaySend(s: Settings, kind: ProtocolKind, payload: string, out: string) {
    || Structured(s, kind, payload, true, out)
    || (Structured(s, kind, payload, false, payload) && out == Fallback(s, payload).payload)
  }

  /** `patch_payload`, then the transport patch when no adapter changed anything. */
  method Patch(engine: PatchEngine.Engine, s: Settings, kind: ProtocolKind, payload: string) returns (out: string)
    requires s.config == engine.config && s.rules == engine.ActiveRules()
    ensures MaySend(s, kind, payload, out)
  {
    hide Outcome, PatchEngine.TransportPipeline, Find;
    var structured := false;
    out := payload;
    if s.adapterEnabled && s.httpAdapterEnabled && kind == Http && Find(payload, CRLF, 0).Some? {
      structured, out := HttpAdapter.ApplyPatch(payload, ContextFor(s, kind), engine);
      UnchangedOutcome(s, kind, payload, structured, out);
    }
    if !structured {
      var changed;
      out, changed := engine.ApplyTransportPatch(payload, "tcp", s.direction,
        Some(MatchContext("tcp", s.direction, s.host, "", "", "", s.remotePort)));
    }
  }

  lemma UnchangedOutcome(s: Settings, kind: ProtocolKind, payload: string, changed: bool, result: string)
    requires Outcome(s.config, s.rules, ContextFor(s, kind), payload, changed, result)
    ensures !changed ==> result == payload
  {
    hide ParseMessage, PatchMessage, Sent, HostFor;
  }

  /** Rules that come from a rule file, even a faulty one, never set a header with a line feed in it. */
  lemma LoadedRulesAreLfFree(text: string)
    ensures RulesLfFree(RuleDsl.Load(text).rules)
  {
    hide RuleDsl.Load, RuleText.Printable;
    var rules := RuleDsl.Load(text).rules;
    RuleText.LoadedArePrintable(text);
    forall i | 0 <= i < |rules| ensures EntriesLfFree(rules[i].action.headerSet) {
      PrintableIsLfFree(rules[i]);
    }
  }

  lemma PrintableIsLfFree(r: Rule)
    requires RuleText.Printable(r)
    ensures EntriesLfFree(r.action.headerSet)
  {
    var values := r.action.headerSet;
    hide RuleText.GetText;
    forall name | name in values ensures NoLf(name) && NoLf(values[name]) {
      RuleText.CleanHasNoLf(name);
      RuleText.CleanHasNoLf(values[name]);
    }
  }

  /** The patch function of a pump, whatever visiting orders it happens to use. */
  ghost predicate Implements(s: Settings, patch: PumpModel.Patch) {
    forall kind, payload :: MaySend(s, kind, payload, patch(kind, payload))
  }

  /** The real patch pipeline makes nothing out of nothing. */
  lemma PipelineKeepsEmpty(s: Settings, env: Env)
    requires Implements(s, env.patch)
    ensures KeepsEmpty(env)
  {
    hide Outcome, Find;
    forall kind ensures env.patch(kind, "") == "" {
      assert MaySend(s, kind, "", env.patch(kind, ""));
      NoLineInNothing();
      PatchEngine.TransportPipelineEmpty(s.config, s.rules,
        MatchContext("tcp", s.direction, s.host, "", "", "", s.remotePort));
    }
  }

  lemma NoLineInNothing()
    ensures !Contains("", CRLF)
  {
  }

  // ---------- what a rule sees of a connection ----------

  /** On a message the adapter handles, a rule that sets a new header acts exactly when its conditions hold
      of "http", the direction, the host and the port of the connection and of the method and the target
      that stand in the first line; there is no process name. */
  lemma StructuredRuleActsIff(s: Settings, rule: Rule, verb: string, target: string, rest: string, tail: string,
                              changed: bool, result: string)
    requires s.rules == [rule] && HttpRules.RulesOnly(s.config) && s.host != ""
    requires s.adapterEnabled && s.httpAdapterEnabled
    requires ' ' !in verb && ' ' !in target && NoLf(verb + " " + target + " " + rest)
    requires !StartsWithIgnoreCase(verb, "HTTP/")
    requires Contains(verb + " " + target + " " + rest + CRLF + tail, HEAD_END)
    requires var m := ParseMessage(verb + " " + target + " " + rest + CRLF + tail);
             m.Some? ==> HttpRules.SetsNew(rule, m.value.headers)
    requires Structured(s, Http, verb + " " + target + " " + rest + CRLF + tail, changed, result)
    ensures changed <==>
              HttpRules.AllHold(rule.when, "http", s.direction, s.host, verb, target, "", s.remotePort)
  {
    hide Outcome, ParseMessage, HttpRules.SetsNew, HttpRules.AllHold, Find, NoLf, StartsWithIgnoreCase;
    LineEndIsFound(verb + " " + target + " " + rest, tail);
    var host := HttpRules.RequestRuleActsIff(s.config, rule, ContextFor(s, Http), verb, target, rest, tail,
                                             changed, result);
  }

  lemma LineEndIsFound(line: string, tail: string)
    ensures Contains(line + CRLF + tail, CRLF)
  {
    hide Find, At;
    var text := line + CRLF + tail;
    assert text[|line|..|line| + 2] == CRLF;
    AtHere(text, CRLF, |line|);
    FindLeftmost(text, CRLF, 0);
  }

  /** On bytes a rule acts exactly when its conditions hold of "tcp", the direction, the host and the port;
      there is no method, path or process name. */
  lemma FallbackRuleActsIff(s: Settings, rule: Rule, payload: string, pieces: seq<string>)
    requires s.rules == [rule] && !s.config.enableTextPatch && !s.config.enableHexPatch
    requires rule.action.textFind != "" && rule.action.hexFind == ""
    requires Replace.IsLeftmostSplit(pieces, payload, rule.action.textFind) && |pieces| > 1
    ensures Fallback(s, payload) ==
            if HttpRules.AllHold(rule.when, "tcp", s.direction, s.host, "", "", "", s.remotePort)
            then Patched(Replace.Join(pieces, rule.action.textReplace), true) else Patched(payload, false)
  {
    hide Selected, TransportActions, HttpActions, Find, ToLower, Replace.IsLeftmostSplit, Hex.Decode;
    var x := MatchContext("tcp", s.direction, s.host, "", "", "", s.remotePort);
    var p, m := Patched(payload, false), HttpModel(map[], "", false);
    var none: seq<Rule> := [];
    NothingSelected(x, p, m);
    NoHexIsNothing();
    Replace.SplitUnique(pieces, payload, rule.action.textFind);
    assert none + [rule] == [rule] && none + [rule] + none == [rule] && none + none == none;
    if HttpRules.AllHold(rule.when, "tcp", s.direction, s.host, "", "", "", s.remotePort) {
      FulfilledRuleActs(none, rule, x, p, m);
    } else {
      ContradictedRuleIsSkipped(none, rule, none, x, p, m);
    }
  }

  // ---------- two rules of config/rules_packet_smoke.dsl ----------

  const OUTBOUND_RULE: Rule :=
    Rule("tcp-text-outbound", Condition("tcp", "outbound", "", "", "", "", 0),
         Action("hello", "patched_hello", "", "", "", "", map[]))
  const INBOUND_RULE: Rule :=
    Rule("tcp-text-inbound", Condition("tcp", "inbound", "", "", "", "", 0),
         Action("world", "patched_world", "", "", "", "", map[]))

  /** On the way out "hello" is patched, and "world" is left alone because its rule is for the way in. */
  lemma SmokeRules(s: Settings)
    requires !s.config.enableTextPatch && !s.config.enableHexPatch && s.direction == "outbound"
    ensures s.rules == [OUTBOUND_RULE] ==> Fallback(s, "hello") == Patched("patched_hello", true)
    ensures s.rules == [INBOUND_RULE] ==> Fallback(s, "world") == Patched("world", false)
  {
    hide Fallback, Replace.IsLeftmostSplit;
    SmokeConditions();
    WholeSplit("hello");
    WholeSplit("world");
    assert Replace.Join(["", ""], "patched_hello") == "patched_hello" by { JoinOfNothing("patched_hello"); }
    if s.rules == [OUTBOUND_RULE] { FallbackRuleActsIff(s, OUTBOUND_RULE, "hello", ["", ""]); }
    if s.rules == [INBOUND_RULE] { FallbackRuleActsIff(s, INBOUND_RULE, "world", ["", ""]); }
  }

  lemma SmokeConditions()
    ensures ToLower("tcp") == "tcp" && ToLower("outbound") == "outbound"
  {
  }

  lemma JoinOfNothing(separator: string)
    ensures Replace.Join(["", ""], separator) == separator
  {
    assert ["", ""][1..] == [""];
  }

  /** A text that is the pattern itself is cut into two empty pieces. */
  lemma WholeSplit(find: string)
    requires find != ""
    ensures Replace.IsLeftmostSplit(["", ""], find, find)
  {
    hide Find, At;
    JoinOfNothing(find);
    assert "" + find == find;
    AtHere(find, find, 0);
    FindIs(find, find, 0, 0);
    FindLeftmost("", find, 0);
  }

  /** When the adapter leaves the message alone, so does the transport patch. */
  ghost predicate PassedOnAsIs(s: Settings, kind: ProtocolKind, m: string) {
    Structured(s, kind, m, false, m) ==> !Fallback(s, m).changed
  }

  /** The rule has nothing to put into a byte payload, or is meant for another protocol than "tcp". */
  predicate InertOnBytes(r: Rule) {
    || (r.action.textFind == "" && r.action.hexFind == "")
    || !Accepts(r.when.protocol, "tcp")
  }

  /** A condition on the settings under which the transport patch changes no payload at all. */
  lemma FallbackIsInert(s: Settings, payload: string)
    requires !s.config.enableTextPatch && !s.config.enableHexPatch
    requires forall i | 0 <= i < |s.rules| :: InertOnBytes(s.rules[i])
    ensures Fallback(s, payload) == Patched(payload, false)
  {
    hide TransportActions, Selected;
    RulesAreInert(s.rules, MatchContext("tcp", s.direction, s.host, "", "", "", s.remotePort), Patched(payload, false));
  }

  lemma {:induction false} RulesAreInert(rules: seq<Rule>, context: MatchContext, p: Patched)
    requires context.protocol == "tcp" && forall i | 0 <= i < |rules| :: InertOnBytes(rules[i])
    ensures TransportActions(Selected(rules, context), p) == p
  {
    hide Accepts, TransportAction;
    if rules != [] {
      var front, last := rules[..|rules| - 1], rules[|rules| - 1];
      RulesAreInert(front, context, p);
      if Matches(last.when, context) {
        ActionsStep(Selected(front, context), last.action, p, HttpModel(map[], "", false));
        EmptyFindIsInert(last.action, p);
      }
      assert Selected(front, context) + [] == Selected(front, context);
    }
  }

  lemma EmptyFindIsInert(a: Action, p: Patched)
    requires a.textFind == "" && a.hexFind == ""
    ensures TransportAction(a, p) == p
  {
    Replace.NoOccurrence(p.payload, "", a.textReplace);
  }

  /** What one message becomes: a self-framed message again, whether it was patched or passed on. */
  lemma SentMessageIsSelfFramed(s: Settings, kind: ProtocolKind, m: string, out: string)
    requires MaySend(s, kind, m, out)
    requires SelfFramed(m) && CleanPayload(m) && RulesLfFree(s.rules) && RulesHarmless(s.rules)
    requires |out| < SIZE_T && PassedOnAsIs(s, kind, m)
    ensures SelfFramed(out)
  {
    hide Outcome, CleanPayload, SelfFramed, PatchEngine.TransportPipeline, RulesLfFree, RulesHarmless, CanHandle;
    if Structured(s, kind, m, true, out) {
      PatchedIsSelfFramed(s.config, s.rules, ContextFor(s, kind), m, out);
    } else {
      PatchEngine.TransportPipelineUnchanged(s.config, s.rules,
        MatchContext("tcp", s.direction, s.host, "", "", "", s.remotePort), m);
    }
  }

  /** The read holds whole messages; none of them wraps, hides a Content-Length key, or is changed by the
      transport patch alone. */
  ghost predicate GoodRead(s: Settings, read: string) {
    && Drain(read).rest == "" && DrainsWithoutWrap(read)
    && forall m | m in Drain(read).messages :: CleanPayload(m) && PassedOnAsIs(s, Http, m)
  }

  lemma {:induction false} AllSegmentsOfGoodReads(s: Settings, inputs: seq<string>, l: Latch)
    requires forall i: nat | i < |inputs| :: KindAt(inputs, i, l) == Http && GoodRead(s, inputs[i])
    ensures AllWhole(inputs, l)
    ensures forall segment | segment in AllSegments(inputs, l) ::
              segment.kind == Http && SelfFramed(segment.bytes) && CleanPayload(segment.bytes)
              && PassedOnAsIs(s, Http, segment.bytes)
    decreases |inputs|
  {
    hide Drain, DrainsWithoutWrap, SelfFramed, CleanPayload, PassedOnAsIs, Next;
    if inputs != [] {
      var next := Next(l, inputs[0]);
      assert KindAt(inputs, 0, l) == Http && GoodRead(s, inputs[0]);
      DrainedAreSelfFramed(inputs[0]);
      forall i: nat | i < |inputs[1..]| ensures KindAt(inputs[1..], i, next) == Http && GoodRead(s, inputs[1..][i]) {
        assert KindAt(inputs, i + 1, l) == Http && GoodRead(s, inputs[i + 1]);
      }
      AllSegmentsOfGoodReads(s, inputs[1..], next);
    }
  }

  /** End to end: when the first read is recognised as HTTP, every read is a whole number of clean
      messages, and the transport patch changes none that the adapter leaves alone, the pump exits, and a
      peer that reassembles what the target received, in any chunks, takes exactly the patched messages
      and has nothing left. */
  lemma PeerSeesPatchedMessages(s: Settings, env: Env, first: string, events: seq<Event>, chunks: seq<string>)
    requires Implements(s, env.patch) && NeverFails(env.oracle) && |first| <= 8192
    requires RulesLfFree(s.rules) && RulesHarmless(s.rules)
    requires var inputs := Reads(first, events);
             && (inputs == [] || Detect(inputs[0]) == Http)
             && forall i: nat | i < |inputs| :: GoodRead(s, inputs[i])
    requires forall segment | segment in AllSegments(Reads(first, events), START) ::
               |env.patch(segment.kind, segment.bytes)| < SIZE_T
    requires Flatten(chunks) == Run(env, Init(first, events)).accepted
    ensures Run(env, Init(first, events)).status == Finished
    ensures Feed("", chunks) == Drained(Outputs(env.patch, AllSegments(Reads(first, events), START)), "")
  {
    hide Run, AllSegments, AllWhole, KindAt, Reads, GoodRead, Detect, MaySend, SelfFramed, CleanPayload,
         PassedOnAsIs, Flatten, RulesLfFree, RulesHarmless;
    var inputs := Reads(first, events);
    var segments := AllSegments(inputs, START);
    forall i: nat | i < |inputs| ensures KindAt(inputs, i, START) == Http { KnownFirstRead(inputs, i); }
    AllSegmentsOfGoodReads(s, inputs, START);
    PipelineKeepsEmpty(s, env);
    NoSendFails(env, segments, 0);
    HandedOverReadByRead(env, first, events);
    forall m | m in Outputs(env.patch, segments) ensures SelfFramed(m) {
      var i :| 0 <= i < |segments| && m == env.patch(segments[i].kind, segments[i].bytes);
      assert segments[i] in segments;
      assert MaySend(s, segments[i].kind, segments[i].bytes, m);
      SentMessageIsSelfFramed(s, segments[i].kind, segments[i].bytes, m);
    }
    TargetReframes(env, first, events, chunks);
  }
}
