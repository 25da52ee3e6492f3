/** Rules as values and what applying them means (src/rules/rule_engine.h, src/rules/rule_engine.cpp). */
module RuleModel {
  import opened Text
  import Replace
  import Hex

  type HeaderMap = map<string, string>
  /** An order in which an `unordered_map` may be visited. */
  ghost predicate IsOrder(order: seq<string>, headers: HeaderMap) {
    && (forall i, j | 0 <= i < j < |order| :: order[i] != order[j])
    && (forall i | 0 <= i < |order| :: order[i] in headers)
    && (forall name | name in headers :: name in order)
  }

  type Port = n: nat | n < 0x1_0000

  datatype MatchContext = MatchContext(
    protocol: string, direction: string, host: string, verb: string,
    path: string, processName: string, remotePort: Port)

  datatype Condition = Condition(
    protocol: string, direction: string, hostContains: string, verb: string,
    pathContains: string, processName: string, remotePort: Port)

  datatype Action = Action(
    textFind: string, textReplace: string, hexFind: string, hexReplace: string,
    bodyFind: string, bodyReplace: string, headerSet: HeaderMap)

  datatype Rule = Rule(name: string, when: Condition, action: Action)

  /** A text condition that is empty, or "any", accepts everything. */
  predicate Accepts(wanted: string, actual: string) {
    wanted == "" || wanted == "any" || wanted == ToLower(actual)
  }

  predicate Matches(when: Condition, context: MatchContext) {
    && Accepts(when.protocol, context.protocol)
    && Accepts(when.direction, context.direction)
    && (when.hostContains == "" || Contains(ToLower(context.host), when.hostContains))
    && (when.verb == "" || when.verb == ToLower(context.verb))
    && (when.pathContains == "" || Contains(ToLower(context.path), when.pathContains))
    && (when.processName == "" || when.processName == ToLower(context.processName))
    && (when.remotePort == 0 || when.remotePort == context.remotePort)
  }

  /** The actions of the matching rules, in rule order. */
  function Selected(rules: seq<Rule>, context: MatchContext): seq<Action> {
    if rules == [] then []
    else
      var front, last := rules[..|rules| - 1], rules[|rules| - 1];
      Selected(front, context) + (if Matches(last.when, context) then [last.action] else [])
  }

  // ---------- byte payloads ----------

  datatype Patched = Patched(payload: string, changed: bool)

  function Substitute(p: Patched, find: string, replacement: string): Patched {
    Patched(Replace.ReplaceAll(p.payload, find, replacement),
            p.changed || Replace.Occurrences(p.payload, find) > 0)
  }

  /** A hex pair takes part only when both texts decode; an empty pattern finds nothing. */
  function SubstituteHex(p: Patched, findHex: string, replaceHex: string): Patched {
    match (Hex.Decode(findHex), Hex.Decode(replaceHex))
    case (Some(find), Some(replacement)) => Substitute(p, find, replacement)
    case _ => p
  }

  function TransportAction(a: Action, p: Patched): Patched {
    var t := Substitute(p, a.textFind, a.textReplace);
    if a.hexFind == "" then t else SubstituteHex(t, a.hexFind, a.hexReplace)
  }

  function TransportActions(actions: seq<Action>, p: Patched): Patched {
    if actions == [] then p
    else TransportAction(actions[|actions| - 1], TransportActions(actions[..|actions| - 1], p))
  }

  // ---------- HTTP messages ----------

  /** The part of a request or a response that patches can touch. */
  datatype HttpModel = HttpModel(headers: HeaderMap, body: string, changed: bool)

  function SetHeaders(m: HttpModel, values: HeaderMap): HttpModel {
    m.(headers := m.headers + values,
       changed := m.changed || exists name | name in values ::
         !(name in m.headers && m.headers[name] == values[name]))
  }

  function SubstituteBody(m: HttpModel, find: string, replacement: string): HttpModel {
    var p := Substitute(Patched(m.body, m.changed), find, replacement);
    m.(body := p.payload, changed := p.changed)
  }

  function HttpAction(a: Action, m: HttpModel): HttpModel {
    SubstituteBody(SubstituteBody(SetHeaders(m, a.headerSet), a.bodyFind, a.bodyReplace),
                   a.textFind, a.textReplace)
  }

  function HttpActions(actions: seq<Action>, m: HttpModel): HttpModel {
    if actions == [] then m
    else HttpAction(actions[|actions| - 1], HttpActions(actions[..|actions| - 1], m))
  }

  lemma NothingSelected(context: MatchContext, p: Patched, m: HttpModel)
    ensures Selected([], context) == []
    ensures TransportActions([], p) == p && HttpActions([], m) == m
  {
  }

  lemma SelectedStep(rules: seq<Rule>, context: MatchContext, i: nat)
    requires i < |rules|
    ensures Selected(rules[..i + 1], context) ==
            Selected(rules[..i], context) + (if Matches(rules[i].when, context) then [rules[i].action] else [])
  {
    assert rules[..i + 1][..i] == rules[..i];
  }

  lemma ActionsStep(done: seq<Action>, a: Action, p: Patched, m: HttpModel)
    ensures TransportActions(done + [a], p) == TransportAction(a, TransportActions(done, p))
    ensures HttpActions(done + [a], m) == HttpAction(a, HttpActions(done, m))
  {
    assert (done + [a])[..|done|] == done;
  }

  // ---------- what the conditions of a rule do ----------

  lemma {:induction false} SelectedAppend(a: seq<Rule>, b: seq<Rule>, context: MatchContext)
    ensures Selected(a + b, context) == Selected(a, context) + Selected(b, context)
    decreases |b|
  {
    hide Matches;
    if b == [] {
      assert a + b == a && Selected(b, context) == [];
      assert Selected(a, context) + [] == Selected(a, context);
    } else {
      assert (a + b)[..|a + b| - 1] == a + b[..|b| - 1];
      SelectedAppend(a, b[..|b| - 1], context);
    }
  }

  lemma SelectedOne(rule: Rule, context: MatchContext)
    ensures Selected([rule], context) == if Matches(rule.when, context) then [rule.action] else []
  {
    hide Matches;
    assert [rule][..0] == [];
    assert Selected([], context) == [];
  }

  /** A rule one of whose seven conditions contradicts the context takes no part, wherever it stands:
      every payload and every message come out as without it. */
  lemma ContradictedRuleIsSkipped(before: seq<Rule>, rule: Rule, after: seq<Rule>, context: MatchContext,
                                  p: Patched, m: HttpModel)
    requires var w := rule.when;
             || (w.protocol != "" && w.protocol != "any" && w.protocol != ToLower(context.protocol))
             || (w.direction != "" && w.direction != "any" && w.direction != ToLower(context.direction))
             || (w.hostContains != "" && Find(ToLower(context.host), w.hostContains, 0).None?)
             || (w.verb != "" && w.verb != ToLower(context.verb))
             || (w.pathContains != "" && Find(ToLower(context.path), w.pathContains, 0).None?)
             || (w.processName != "" && w.processName != ToLower(context.processName))
             || (w.remotePort != 0 && w.remotePort != context.remotePort)
    ensures var all, rest := Selected(before + [rule] + after, context), Selected(before + after, context);
            TransportActions(all, p) == TransportActions(rest, p) && HttpActions(all, m) == HttpActions(rest, m)
  {
    hide TransportActions, HttpActions, Selected, Find, ToLower;
    SelectedOne(rule, context);
    SelectedAppend(before, [rule], context);
    SelectedAppend(before + [rule], after, context);
    SelectedAppend(before, after, context);
    assert Selected(before, context) + [] == Selected(before, context);
  }

  /** A rule whose seven conditions hold acts, after the rules in front of it. On bytes it replaces its
      text, then its bytes; on a message it sets its headers, replaces its body text, then its text. */
  lemma FulfilledRuleActs(before: seq<Rule>, rule: Rule, context: MatchContext, p: Patched, m: HttpModel)
    requires var w := rule.when;
             && (w.protocol == "" || w.protocol == "any" || w.protocol == ToLower(context.protocol))
             && (w.direction == "" || w.direction == "any" || w.direction == ToLower(context.direction))
             && (w.hostContains == "" || Find(ToLower(context.host), w.hostContains, 0).Some?)
             && (w.verb == "" || w.verb == ToLower(context.verb))
             && (w.pathContains == "" || Find(ToLower(context.path), w.pathContains, 0).Some?)
             && (w.processName == "" || w.processName == ToLower(context.processName))
             && (w.remotePort == 0 || w.remotePort == context.remotePort)
    ensures var a, q := rule.action, TransportActions(Selected(before, context), p);
            var text := Replace.ReplaceAll(q.payload, a.textFind, a.textReplace);
            var find, replacement := Hex.Decode(a.hexFind), Hex.Decode(a.hexReplace);
            var bytes := if find.Some? && replacement.Some?
                         then Replace.ReplaceAll(text, find.value, replacement.value) else text;
            && TransportActions(Selected(before + [rule], context), p).payload == bytes
            && (TransportActions(Selected(before + [rule], context), p).changed <==>
                  q.changed || Replace.Occurrences(q.payload, a.textFind) > 0
                  || (find.Some? && replacement.Some? && Replace.Occurrences(text, find.value) > 0))
    ensures var a, n := rule.action, HttpActions(Selected(before, context), m);
            var body := Replace.ReplaceAll(n.body, a.bodyFind, a.bodyReplace);
            var r := HttpActions(Selected(before + [rule], context), m);
            && r.headers == n.headers + a.headerSet
            && r.body == Replace.ReplaceAll(body, a.textFind, a.textReplace)
            && (r.changed <==>
                  n.changed || Replace.Occurrences(n.body, a.bodyFind) > 0 || Replace.Occurrences(body, a.textFind) > 0
                  || exists name | name in a.headerSet :: !(name in n.headers && n.headers[name] == a.headerSet[name]))
  {
    hide TransportActions, HttpActions, Selected, Find, ToLower, Replace.ReplaceAll, Replace.Occurrences, Hex.Decode;
    SelectedOne(rule, context);
    SelectedAppend(before, [rule], context);
    ActionsStep(Selected(before, context), rule.action, p, m);
    NoHexIsNothing();
  }

  /** The empty text decodes to no bytes, which are found nowhere. */
  lemma NoHexIsNothing()
    ensures Hex.Decode("") == Some("")
    ensures forall text: string, replacement: string :: Replace.ReplaceAll(text, "", replacement) == text
    ensures forall text: string :: Replace.Occurrences(text, "") == 0
  {
    hide Hex.Decode;
    Hex.NothingDecodes();
  }

  // ---------- what an unset flag promises ----------

  lemma SubstituteUnchanged(p: Patched, find: string, replacement: string)
    requires !Substitute(p, find, replacement).changed
    ensures Substitute(p, find, replacement) == p
  {
    Replace.NoOccurrence(p.payload, find, replacement);
  }

  lemma {:induction false} TransportUnchanged(actions: seq<Action>, p: Patched)
    requires !TransportActions(actions, p).changed
    ensures TransportActions(actions, p) == p
  {
    hide Substitute;
    if actions != [] {
      var a := actions[|actions| - 1];
      var q := TransportActions(actions[..|actions| - 1], p);
      var t := Substitute(q, a.textFind, a.textReplace);
      if a.hexFind != "" {
        match (Hex.Decode(a.hexFind), Hex.Decode(a.hexReplace))
        case (Some(find), Some(replacement)) => SubstituteUnchanged(t, find, replacement);
        case _ =>
      }
      SubstituteUnchanged(q, a.textFind, a.textReplace);
      TransportUnchanged(actions[..|actions| - 1], p);
    }
  }

  lemma HttpActionUnchanged(a: Action, m: HttpModel)
    requires !HttpAction(a, m).changed
    ensures HttpAction(a, m) == m
  {
    hide Substitute;
    var h := SetHeaders(m, a.headerSet);
    var b := SubstituteBody(h, a.bodyFind, a.bodyReplace);
    SubstituteUnchanged(Patched(b.body, b.changed), a.textFind, a.textReplace);
    SubstituteUnchanged(Patched(h.body, h.changed), a.bodyFind, a.bodyReplace);
    assert m.headers + a.headerSet == m.headers;
  }

  lemma {:induction false} HttpUnchanged(actions: seq<Action>, m: HttpModel)
    requires !HttpActions(actions, m).changed
    ensures HttpActions(actions, m) == m
  {
    hide HttpAction;
    if actions != [] {
      HttpActionUnchanged(actions[|actions| - 1], HttpActions(actions[..|actions| - 1], m));
      HttpUnchanged(actions[..|actions| - 1], m);
    }
  }

  /** No transport patch can make bytes out of an empty payload. */
  lemma {:induction false} TransportKeepsEmpty(actions: seq<Action>)
    ensures TransportActions(actions, Patched("", false)) == Patched("", false)
  {
    if actions != [] {
      TransportKeepsEmpty(actions[..|actions| - 1]);
      var a := actions[|actions| - 1];
      SubstituteEmpty(a.textFind, a.textReplace);
      match (Hex.Decode(a.hexFind), Hex.Decode(a.hexReplace))
      case (Some(find), Some(replacement)) => SubstituteEmpty(find, replacement);
      case _ =>
    }
  }

  lemma SubstituteEmpty(find: string, replacement: string)
    ensures Substitute(Patched("", false), find, replacement) == Patched("", false)
  {
  }

  // ---------- where headers come from ----------

  ghost predicate AllEntries(headers: HeaderMap, allowed: (string, string) -> bool) {
    forall name | name in headers :: allowed(name, headers[name])
  }

  lemma {:induction false} HttpActionsEntries(actions: seq<Action>, m: HttpModel, allowed: (string, string) -> bool)
    requires AllEntries(m.headers, allowed)
    requires forall i | 0 <= i < |actions| :: AllEntries(actions[i].headerSet, allowed)
    ensures AllEntries(HttpActions(actions, m).headers, allowed)
  {
    if actions != [] {
      HttpActionsEntries(actions[..|actions| - 1], m, allowed);
      assert AllEntries(actions[|actions| - 1].headerSet, allowed);
    }
  }

  lemma {:induction false} SelectedComeFromRules(rules: seq<Rule>, context: MatchContext)
    ensures forall a | a in Selected(rules, context) :: exists i | 0 <= i < |rules| :: rules[i].action == a
  {
    hide Matches;
    if rules != [] {
      var front, last := rules[..|rules| - 1], rules[|rules| - 1];
      SelectedComeFromRules(front, context);
      forall a | a in Selected(rules, context) ensures exists i | 0 <= i < |rules| :: rules[i].action == a {
        if a in Selected(front, context) {
          var i :| 0 <= i < |front| && front[i].action == a;
          assert rules[i].action == a;
        } else {
          assert rules[|rules| - 1].action == a;
        }
      }
    }
  }
}
