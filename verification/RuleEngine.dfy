/** The rule engine object (src/rules/rule_engine.cpp). */
module RuleEngine {
  import opened Text
  import opened RuleModel
  import opened RuleDsl
  import RuleText
  import Replace
  import Hex

  class Engine {
    var rules: seq<Rule>

    constructor ()
      ensures rules == []
    {
      rules := [];
    }

    /** `load_from_file`: the file's content, or `None` when it cannot be opened. After an error the rules
        finished so far stay loaded. */
    method LoadFromFile(content: Option<string>) returns (ok: bool, error: Option<LoadError>)
      modifies this
      ensures content.None? ==> !ok && rules == [] && error == Some(CannotOpen)
      ensures content.Some? ==> Loaded(rules, error) == Load(content.value) && (ok <==> error.None?)
    {
      hide GetLines, LoadLines, StripComment, Trim, Unquote, Find, FieldFrom, Assign;
      rules := [];
      if content.None? {
        return false, Some(CannotOpen);
      }
      var currentRule, inRule, rest, lineNumber := EmptyRule(""), false, content.value, 0;
      while rest != ""
        invariant LoadLines(Loader(rules, currentRule, inRule), GetLines(rest), lineNumber + 1) == Load(content.value)
        decreases |rest|
      {
        ghost var loader, before := Loader(rules, currentRule, inRule), rest;
        var newline := Find(rest, "\n", 0);
        var line := if newline.Some? then rest[..newline.value] else rest;
        rest := if newline.Some? then rest[newline.value + 1..] else "";
        lineNumber := lineNumber + 1;
        LoadNext(loader, before, lineNumber);
        var trimmed := Trimmed(StripComment(line));
        if trimmed != "" {
          if !inRule {
            if !("rule " <= trimmed) {
              return false, Some(ExpectedRule(lineNumber));
            }
            var declaration := Trimmed(trimmed[5..]);
            if declaration == "" || declaration[|declaration| - 1] != '{' {
              return false, Some(ExpectedBrace(lineNumber));
            }
            var name := Trimmed(declaration[..|declaration| - 1]);
            name := Unquote(name);
            if name == "" {
              return false, Some(EmptyName(lineNumber));
            }
            currentRule, inRule := EmptyRule(name), true;
          } else if trimmed == "}" {
            rules, currentRule, inRule := rules + [currentRule], EmptyRule(""), false;
          } else {
            var equal := Find(trimmed, "=", 0);
            if equal.None? {
              return false, Some(ExpectedKeyValue(lineNumber));
            }
            var key := Trimmed(trimmed[..equal.value]);
            var value := Trimmed(trimmed[equal.value + 1..]);
            value := Unquote(value);
            var failure;
            currentRule, failure := SetKeyValue(currentRule, key, value, lineNumber);
            if failure.Some? {
              return false, failure;
            }
          }
        }
      }
      LoadEnd(Loader(rules, currentRule, inRule), lineNumber + 1);
      if inRule {
        return false, Some(Unterminated);
      }
      return true, None;
    }

    /** The comparisons of the key with the conditions, in their order. */
    static method SetCondition(current: Rule, key: string, value: string)
      returns (known: bool, updated: Option<Rule>)
      ensures known <==> FieldFrom(key, 0).Some? && RuleText.IsWhen(FieldFrom(key, 0).value)
      ensures known ==> updated == Assign(current, FieldFrom(key, 0).value, value)
    {
      hide ParseU16, FieldFrom;
      RuleText.KeyTable(key);
      known, updated := true, Some(current);
      if key == "when.protocol" {
        var lowered := Lowered(value);
        updated := Some(current.(when := current.when.(protocol := lowered)));
      } else if key == "when.direction" {
        var lowered := Lowered(value);
        updated := Some(current.(when := current.when.(direction := lowered)));
      } else if key == "when.host_contains" {
        var lowered := Lowered(value);
        updated := Some(current.(when := current.when.(hostContains := lowered)));
      } else if key == "when.method" {
        var lowered := Lowered(value);
        updated := Some(current.(when := current.when.(verb := lowered)));
      } else if key == "when.path_contains" {
        var lowered := Lowered(value);
        updated := Some(current.(when := current.when.(pathContains := lowered)));
      } else if key == "when.process" {
        var lowered := Lowered(value);
        updated := Some(current.(when := current.when.(processName := lowered)));
      } else if key == "when.remote_port" {
        var port := ParseU16(value);
        updated := if port.None? then None else Some(current.(when := current.when.(remotePort := port.value)));
      } else {
        known := false;
      }
    }

    /** The comparisons with the actions; `None` is an unknown key. */
    static method SetAction(current: Rule, key: string, value: string) returns (updated: Option<Rule>)
      requires FieldFrom(key, 0).Some? ==> !RuleText.IsWhen(FieldFrom(key, 0).value)
      ensures updated == match FieldFrom(key, 0) case None => None case Some(f) => Assign(current, f, value)
    {
      hide FieldFrom;
      RuleText.KeyTable(key);
      updated := None;
      if key == "action.text_find" {
        updated := Some(current.(action := current.action.(textFind := value)));
      } else if key == "action.text_replace" {
        updated := Some(current.(action := current.action.(textReplace := value)));
      } else if key == "action.hex_find" {
        updated := Some(current.(action := current.action.(hexFind := value)));
      } else if key == "action.hex_replace" {
        updated := Some(current.(action := current.action.(hexReplace := value)));
      } else if key == "action.body_find" {
        updated := Some(current.(action := current.action.(bodyFind := value)));
      } else if key == "action.body_replace" {
        updated := Some(current.(action := current.action.(bodyReplace := value)));
      } else if HEADER_PREFIX <= key {
        var name := key[|HEADER_PREFIX|..];
        updated := Some(current.(action := current.action.(headerSet := current.action.headerSet[name := value])));
      }
    }

    /** One `key = value` line: the comparisons of the key, in their order. */
    static method SetKeyValue(current: Rule, key: string, value: string, number: nat)
      returns (updated: Rule, error: Option<LoadError>)
      ensures match SetKey(Loader([], current, true), key, value, number)
              case Stop(e) => error == Some(e)
              case Continue(next) => error == None && updated == next.current
    {
      hide FieldFrom, Assign;
      RuleText.PlainAssignSucceeds(current, key, value);
      updated := current;
      var isCondition, changed := SetCondition(current, key, value);
      if isCondition && changed.None? {
        return current, Some(InvalidPort(number));
      }
      if !isCondition {
        if key == HEADER_PREFIX {
          return current, Some(EmptyHeaderName(number));
        }
        changed := SetAction(current, key, value);
        if changed.None? {
          return current, Some(UnknownKey(number, key));
        }
      }
      return changed.value, None;
    }

    /** `matches`. */
    static method MatchesRule(condition: Condition, context: MatchContext) returns (r: bool)
      ensures r == Matches(condition, context)
    {
      hide Find;
      var protocol := Lowered(context.protocol);
      if condition.protocol != "" && condition.protocol != "any" && condition.protocol != protocol {
        return false;
      }
      var direction := Lowered(context.direction);
      if condition.direction != "" && condition.direction != "any" && condition.direction != direction {
        return false;
      }
      if condition.hostContains != "" {
        var host := Lowered(context.host);
        if Find(host, condition.hostContains, 0).None? {
          return false;
        }
      }
      var verb := Lowered(context.verb);
      if condition.verb != "" && condition.verb != verb {
        return false;
      }
      if condition.pathContains != "" {
        var path := Lowered(context.path);
        if Find(path, condition.pathContains, 0).None? {
          return false;
        }
      }
      var processName := Lowered(context.processName);
      if condition.processName != "" && condition.processName != processName {
        return false;
      }
      if condition.remotePort != 0 && condition.remotePort != context.remotePort {
        return false;
      }
      return true;
    }

    /** `apply_transport`. */
    method ApplyTransport(payload: string, context: MatchContext) returns (result: string, changed: bool)
      ensures Patched(result, changed) == TransportActions(Selected(rules, context), Patched(payload, false))
    {
      hide Matches, Hex.Decode, Replace.ReplaceAll, Replace.Occurrences, Selected, TransportActions;
      NothingSelected(context, Patched(payload, false), HttpModel(map[], "", false));
      assert rules[..0] == [];
      result, changed := payload, false;
      for i := 0 to |rules|
        invariant Patched(result, changed)
               == TransportActions(Selected(rules[..i], context), Patched(payload, false))
      {
        ghost var done := Selected(rules[..i], context);
        SelectedStep(rules, context, i);
        ActionsStep(done, rules[i].action, Patched(payload, false), HttpModel(map[], "", false));
        assert done + [] == done;
        var matches := MatchesRule(rules[i].when, context);
        if matches {
          var a := rules[i].action;
          ghost var before := Patched(result, changed);
          if a.textFind != "" {
            var count;
            result, count := Replace.ReplaceAllInPlace(result, a.textFind, a.textReplace);
            changed := changed || count > 0;
          } else {
            Replace.NoOccurrence(result, "", a.textReplace);
          }
          assert Patched(result, changed) == Substitute(before, a.textFind, a.textReplace);
          if a.hexFind != "" {
            result, changed := this.ApplyHex(result, changed, a.hexFind, a.hexReplace);
          }
        }
      }
      assert rules[..|rules|] == rules;
    }

    method ApplyHex(payload: string, flag: bool, findHex: string, replaceHex: string)
      returns (result: string, changed: bool)
      ensures Patched(result, changed) == SubstituteHex(Patched(payload, flag), findHex, replaceHex)
    {
      hide Hex.Decode;
      result, changed := payload, flag;
      var findOk, findBytes := Hex.DecodeForRules(findHex);
      if findOk {
        var replaceOk, replaceBytes := Hex.DecodeForRules(replaceHex);
        if replaceOk && findBytes != "" {
          var count;
          result, count := Replace.ReplaceAllInPlace(payload, findBytes, replaceBytes);
          changed := changed || count > 0;
        }
      }
    }

    /** `apply_http_request` and `apply_http_response`, whose bodies are the same. */
    method ApplyHttp(headers: HeaderMap, body: string, context: MatchContext)
      returns (newHeaders: HeaderMap, newBody: string, changed: bool)
      ensures HttpModel(newHeaders, newBody, changed)
           == HttpActions(Selected(rules, context), HttpModel(headers, body, false))
    {
      hide Matches, Replace.ReplaceAll, Replace.Occurrences, Selected, HttpActions;
      NothingSelected(context, Patched("", false), HttpModel(headers, body, false));
      assert rules[..0] == [];
      newHeaders, newBody, changed := headers, body, false;
      for i := 0 to |rules|
        invariant HttpModel(newHeaders, newBody, changed)
               == HttpActions(Selected(rules[..i], context), HttpModel(headers, body, false))
      {
        ghost var done := Selected(rules[..i], context);
        SelectedStep(rules, context, i);
        ActionsStep(done, rules[i].action, Patched("", false), HttpModel(headers, body, false));
        assert done + [] == done;
        var matches := MatchesRule(rules[i].when, context);
        if matches {
          var a := rules[i].action;
          var flag;
          newHeaders, flag := ApplyHeaderSet(newHeaders, a.headerSet);
          changed := changed || flag;
          newBody, flag := ApplyBody(newBody, a.bodyFind, a.bodyReplace);
          changed := changed || flag;
          newBody, flag := ApplyBody(newBody, a.textFind, a.textReplace);
          changed := changed || flag;
        }
      }
      assert rules[..|rules|] == rules;
    }

    /** The loop over `header_set`, visiting its entries in an arbitrary order: the result does not
        depend on that order. */
    method ApplyHeaderSet(headers: HeaderMap, values: HeaderMap) returns (r: HeaderMap, changed: bool)
      ensures r == headers + values
      ensures changed <==> exists name | name in values :: !(name in headers && headers[name] == values[name])
    {
      r, changed := headers, false;
      var left := values.Keys;
      while left != {}
        invariant left <= values.Keys
        invariant r.Keys == headers.Keys + (values.Keys - left)
        invariant forall name | name in r ::
                    r[name] == if name in values.Keys - left then values[name] else headers[name]
        invariant changed <==> exists name | name in values.Keys - left ::
                                 !(name in headers && headers[name] == values[name])
        decreases left
      {
        var name :| name in left;
        ghost var before := values.Keys - left;
        if name !in r || r[name] != values[name] {
          r := r[name := values[name]];
          changed := true;
          assert name in values.Keys - (left - {name});
        }
        left := left - {name};
        assert values.Keys - left == before + {name};
      }
    }

    method ApplyBody(body: string, find: string, replacement: string) returns (r: string, changed: bool)
      ensures r == Replace.ReplaceAll(body, find, replacement)
      ensures changed <==> Replace.Occurrences(body, find) > 0
    {
      r, changed := body, false;
      if find != "" {
        var count;
        r, count := Replace.ReplaceAllInPlace(body, find, replacement);
        changed := count > 0;
      }
    }
  }
}
