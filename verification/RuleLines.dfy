/** Rule file lines as they are written by hand (config/rules.dsl), and what the loader makes of them
    (src/rules/rule_engine.cpp). */
module RuleLines {
  import opened Text
  import opened RuleModel
  import opened RuleDsl
  import opened RuleText

  /** The text begins and ends with the same quote. */
  predicate Enclosed(text: string) {
    |text| >= 2 && text[0] == text[|text| - 1] && (text[0] == '"' || text[0] == '\'')
  }

  /** Ways to write a value: as it is, when it has no blanks at its ends and is not enclosed in quotes,
      or between double or single quotes. A comment sign is never part of a value. */
  predicate Writes(written: string, value: string) {
    && '#' !in value
    && (|| (written == value && (value == "" || BareEnds(value)) && !Enclosed(value))
        || written == "\"" + value + "\""
        || written == "'" + value + "'")
  }

  lemma WrittenIsRead(written: string, value: string)
    requires Writes(written, value)
    ensures '#' !in written && Unquote(written) == value && Trim(written) == written
    ensures written != "" ==> BareEnds(written)
  {
    hide Trim;
    if written == value {
      if value != "" { TrimSelf(value); } else { TrimNothing(); }
    } else {
      assert written[1..|written| - 1] == value;
      TrimSelf(written);
    }
  }

  lemma TrimNothing()
    ensures Trim("") == ""
  {
  }

  // ---------- key lines ----------

  /** `key = value` with any blanks around both. */
  ghost predicate WritesKey(line: string, f: Field, value: string) {
    exists a, b, c, d, written | IsBlank(a) && IsBlank(b) && IsBlank(c) && IsBlank(d) && Writes(written, value) ::
      line == a + (KeyText(f) + b + "=" + (c + written)) + d
  }

  /** A key line performs the assignment of exactly the value that is written. */
  lemma WrittenKeyLoads(l: Loader, line: string, f: Field, value: string, number: nat)
    requires l.inRule && WritesKey(line, f, value) && (f.HeaderSet? ==> CleanHeaderName(f.name))
    ensures LoadLine(l, line, number) ==
            match Assign(l.current, f, value)
            case None => Stop(InvalidPort(number))
            case Some(r) => Continue(l.(current := r))
  {
    hide Trim, Assign, KeyText, StripComment, SetField, IsBlank, Writes, OpenRule;
    var a, b, c, d, written :| IsBlank(a) && IsBlank(b) && IsBlank(c) && IsBlank(d) && Writes(written, value)
      && line == a + (KeyText(f) + b + "=" + (c + written)) + d;
    var text := KeyText(f) + b + "=" + (c + written);
    WrittenIsRead(written, value);
    NoHashInKeyLine(f, b, c, written);
    LayoutIsIrrelevant(l, a, text, d, "", number);
    StripAtSign(text, "");
    KeyTextShape(f);
    TrimmedKeyLine(f, b, c, written);
    KeyLineSets(l, f, b, c, written, value, number);
  }

  lemma NoHashInKeyLine(f: Field, b: string, c: string, written: string)
    requires IsBlank(b) && IsBlank(c) && '#' !in written && (f.HeaderSet? ==> CleanHeaderName(f.name))
    ensures '#' !in KeyText(f) + b + "=" + (c + written)
  {
    hide KeyText;
    KeyTextShape(f);
  }

  /** What is left when the blanks at the end of an empty value are trimmed too. */
  lemma TrimmedKeyLine(f: Field, b: string, c: string, written: string)
    requires IsBlank(b) && IsBlank(c) && (written != "" ==> BareEnds(written))
    requires f.HeaderSet? ==> CleanHeaderName(f.name)
    ensures var text := KeyText(f) + b + "=" + (c + written);
            Trim(text) == if written == "" then KeyText(f) + b + "=" else text
  {
    hide Trim, KeyText, IsBlank;
    KeyTextShape(f);
    var text := KeyText(f) + b + "=" + (c + written);
    if written == "" {
      var front := KeyText(f) + b + "=";
      assert front[0] == KeyText(f)[0];
      TrimSelf(front);
      BlankNothing();
      TrimBlanks("", front, c);
      assert "" + front + c == text;
    } else {
      assert text[0] == KeyText(f)[0] && text[|text| - 1] == written[|written| - 1];
      TrimSelf(text);
    }
  }

  lemma BlankNothing()
    ensures IsBlank("")
  {
  }

  lemma KeyLineSets(l: Loader, f: Field, b: string, c: string, written: string, value: string, number: nat)
    requires IsBlank(b) && IsBlank(c) && Writes(written, value)
    requires l.inRule && (f.HeaderSet? ==> CleanHeaderName(f.name))
    requires var text := KeyText(f) + b + "=" + (c + written);
             StripComment(text) == text && Trim(text) == (if written == "" then KeyText(f) + b + "=" else text)
    ensures LoadLine(l, KeyText(f) + b + "=" + (c + written), number) ==
            match Assign(l.current, f, value)
            case None => Stop(InvalidPort(number))
            case Some(r) => Continue(l.(current := r))
  {
    hide Trim, Assign, KeyText, StripComment, FieldFrom, Unquote, Find, IsBlank, Writes, OpenRule;
    var key, text := KeyText(f), KeyText(f) + b + "=" + (c + written);
    var trimmed := Trim(text);
    KeyTextShape(f);
    assert trimmed[0] == key[0];
    FirstEqualsAt(key + b, trimmed[|key + b| + 1..]) by { NoEqualsInBlank(key, b); }
    assert trimmed == key + b + "=" + trimmed[|key + b| + 1..];
    assert trimmed[..|key + b|] == key + b;
    BlankNothing();
    TrimSelf(key);
    TrimBlanks("", key, b);
    assert "" + key + b == key + b;
    WrittenIsRead(written, value);
    ValueAfterEquals(key + b, c, written, trimmed);
    FieldOfKeyFrom(f, 0);
  }

  lemma NoEqualsInBlank(key: string, b: string)
    requires '=' !in key && IsBlank(b)
    ensures '=' !in key + b
  {
  }

  lemma FirstEqualsAt(front: string, rest: string)
    requires '=' !in front
    ensures Find(front + "=" + rest, "=", 0) == Some(|front|)
  {
    hide Find, At;
    var text := front + "=" + rest;
    AtChar(text, '=', |front|);
    forall j: nat | j < |front| ensures !At(text, "=", j) {
      assert text[j] == front[j];
      AtChar(text, '=', j);
    }
    FindIs(text, "=", 0, |front|);
  }

  lemma ValueAfterEquals(front: string, c: string, written: string, trimmed: string)
    requires IsBlank(c) && Trim(written) == written
    requires trimmed == if written == "" then front + "=" else front + "=" + (c + written)
    ensures |trimmed| > |front| && Trim(trimmed[|front| + 1..]) == written
  {
    hide Trim;
    if written == "" {
      assert trimmed[|front| + 1..] == "";
    } else {
      assert trimmed[|front| + 1..] == c + written;
      TrimBlanks(c, written, "");
      assert c + written + "" == c + written;
    }
  }

  // ---------- rule lines ----------

  /** `rule name {` with any blanks around the name. */
  ghost predicate WritesRule(line: string, name: string) {
    exists a, b, c, d, written | IsBlank(a) && IsBlank(b) && IsBlank(c) && IsBlank(d) && Writes(written, name) ::
      line == a + ("rule " + (b + written + c) + "{") + d
  }

  /** A rule line opens the rule of exactly the name that is written. */
  lemma WrittenRuleLoads(l: Loader, line: string, name: string, number: nat)
    requires !l.inRule && WritesRule(line, name)
    ensures LoadLine(l, line, number) ==
            if name == "" then Stop(EmptyName(number)) else Continue(Loader(l.rules, EmptyRule(name), true))
  {
    hide Trim, StripComment, IsBlank, Writes, OpenRule;
    var a, b, c, d, written :| IsBlank(a) && IsBlank(b) && IsBlank(c) && IsBlank(d) && Writes(written, name)
      && line == a + ("rule " + (b + written + c) + "{") + d;
    var text := "rule " + (b + written + c) + "{";
    WrittenIsRead(written, name);
    NoHashInRuleLine(b, written, c);
    LayoutIsIrrelevant(l, a, text, d, "", number);
    StripAtSign(text, "");
    assert text[0] == 'r' && text[|text| - 1] == '{';
    TrimSelf(text);
    RuleLineOpens(l, b, written, c, name, number);
  }

  lemma NoHashInRuleLine(b: string, written: string, c: string)
    requires IsBlank(b) && IsBlank(c) && '#' !in written
    ensures '#' !in "rule " + (b + written + c) + "{"
  {
  }

  lemma RuleLineOpens(l: Loader, b: string, written: string, c: string, name: string, number: nat)
    requires IsBlank(b) && IsBlank(c) && Writes(written, name)
    ensures OpenRule(l, "rule " + (b + written + c) + "{", number) ==
            if name == "" then Stop(EmptyName(number)) else Continue(Loader(l.rules, EmptyRule(name), true))
  {
    hide Trim, IsBlank, Writes, Unquote;
    var middle := b + written + c;
    var text := "rule " + middle + "{";
    WrittenIsRead(written, name);
    assert text[5..] == middle + "{";
    BraceStays(b, written, c);
    var rest := Trim(middle + "{");
    BlankNothing();
    TrimBlanks(b, written, c);
  }

  /** Trimming the declaration drops only blanks in front of the name. */
  lemma BraceStays(b: string, written: string, c: string)
    requires IsBlank(b) && IsBlank(c) && Trim(written) == written && (written != "" ==> BareEnds(written))
    ensures var rest := Trim(b + written + c + "{");
            rest != "" && rest[|rest| - 1] == '{' && Trim(rest[..|rest| - 1]) == written
  {
    hide Trim, IsBlank;
    BlankNothing();
    if written == "" {
      TrimSelf("{");
      BlankJoin(b, c);
      TrimBlanks(b + c, "{", "");
      assert b + written + c + "{" == b + c + "{" + "";
    } else {
      var text := written + c + "{";
      assert text[0] == written[0];
      TrimSelf(text);
      TrimBlanks(b, text, "");
      assert b + written + c + "{" == b + text + "";
      assert text[..|text| - 1] == written + c;
      TrimBlanks("", written, c);
      assert "" + written + c == written + c;
    }
  }

  lemma BlankJoin(a: string, b: string)
    requires IsBlank(a) && IsBlank(b)
    ensures IsBlank(a + b)
  {
  }

  // ---------- lines that are refused ----------

  /** Outside a block a line that is not blank must begin with "rule " and end with a brace. */
  lemma RefusedOutside(l: Loader, line: string, number: nat)
    requires !l.inRule && BareEnds(line) && '#' !in line
    ensures !("rule " <= line) ==> LoadLine(l, line, number) == Stop(ExpectedRule(number))
    ensures "rule " <= line && line[|line| - 1] != '{' ==> LoadLine(l, line, number) == Stop(ExpectedBrace(number))
  {
    hide Trim, StripComment, Unquote;
    StripAtSign(line, "");
    TrimSelf(line);
    if "rule " <= line {
      DeclarationEnds(line);
    }
  }

  /** The last character of a declaration is that of its line. */
  lemma DeclarationEnds(line: string)
    requires "rule " <= line && BareEnds(line)
    ensures var rest := Trim(line[5..]); rest != "" && rest[|rest| - 1] == line[|line| - 1]
  {
    assert |line| > 5;
    var tail := line[5..];
    assert tail[|tail| - 1] == line[|line| - 1];
    var t := SkipSpace(tail);
    assert t != "" by { SkipKeepsBare(tail); }
    assert t[|t| - 1] == tail[|tail| - 1];
  }

  lemma SkipKeepsBare(s: string)
    requires s != "" && !IsSpace(s[|s| - 1])
    ensures SkipSpace(s) != ""
  {
    if IsSpace(s[0]) { SkipKeepsBare(s[1..]); }
  }

  /** Inside a block a line that is not blank and not the closing brace must hold "=", behind a known key. */
  lemma RefusedInside(l: Loader, line: string, number: nat)
    requires l.inRule && BareEnds(line) && '#' !in line && line != "}"
    ensures '=' !in line ==> LoadLine(l, line, number) == Stop(ExpectedKeyValue(number))
    ensures Find(line, "=", 0).Some? <==> '=' in line
    ensures Find(line, "=", 0).Some? ==>
              var key := Trim(line[..Find(line, "=", 0).value]);
              && (key == "action.header_set." ==> LoadLine(l, line, number) == Stop(EmptyHeaderName(number)))
              && ((forall f: Field | !f.HeaderSet? :: key != KeyText(f)) && !("action.header_set." <= key) ==>
                    LoadLine(l, line, number) == Stop(UnknownKey(number, key)))
  {
    hide Trim, StripComment, Find, FieldFrom, Unquote, Assign;
    StripAtSign(line, "");
    TrimSelf(line);
    EqualsIff(line);
    if '=' in line {
      var key := Trim(line[..Find(line, "=", 0).value]);
      WhichField(key);
      if key == "action.header_set." { PlainAssignSucceeds(l.current, key, ""); }
    }
  }

  lemma EqualsIff(line: string)
    ensures Find(line, "=", 0).Some? <==> '=' in line
  {
    hide Find, At;
    FindLeftmost(line, "=", 0);
    if Find(line, "=", 0).Some? {
      AtChar(line, '=', Find(line, "=", 0).value);
    } else if '=' in line {
      var i :| 0 <= i < |line| && line[i] == '=';
      AtChar(line, '=', i);
    }
  }

  // ---------- a whole block ----------

  ghost predicate WritesKeys(lines: seq<string>, assignments: seq<Assignment>) {
    && |lines| == |assignments|
    && forall i | 0 <= i < |lines| ::
         && WritesKey(lines[i], assignments[i].field, assignments[i].value)
         && (assignments[i].field.HeaderSet? ==> CleanHeaderName(assignments[i].field.name))
  }

  /** Key lines perform their assignments one after the other. */
  lemma {:induction false} WrittenKeysLoad(l: Loader, lines: seq<string>, assignments: seq<Assignment>,
                                           rest: seq<string>, number: nat)
    requires l.inRule && WritesKeys(lines, assignments) && AssignAll(l.current, assignments).Some?
    ensures LoadLines(l, lines + rest, number) ==
            LoadLines(l.(current := AssignAll(l.current, assignments).value), rest, number + |lines|)
    decreases |lines|
  {
    hide LoadLine, Assign, WritesKey, AssignAll;
    AssignNothing(l.current);
    if lines == [] {
      assert lines + rest == rest && assignments == [];
    } else {
      var first := assignments[0];
      assert [first] + assignments[1..] == assignments;
      assert (lines + rest)[1..] == lines[1..] + rest;
      AssignFirst(l.current, first, assignments[1..]);
      WrittenKeyLoads(l, lines[0], first.field, first.value, number);
      var next := l.(current := Assign(l.current, first.field, first.value).value);
      WrittenKeysLoad(next, lines[1..], assignments[1..], rest, number + 1);
    }
  }

  /** A block written by hand loads as the rule that its assignments make. */
  lemma WrittenBlockLoads(open': string, name: string, keys: seq<string>, assignments: seq<Assignment>)
    requires WritesRule(open', name) && name != "" && WritesKeys(keys, assignments)
    requires AssignAll(EmptyRule(name), assignments).Some?
    requires forall line | line in [open'] + keys :: NoLf(line)
    ensures Load(WithNewlines([open'] + keys + ["}"])) ==
            Loaded([AssignAll(EmptyRule(name), assignments).value], None)
  {
    hide LoadLine, AssignAll, WritesRule, WritesKeys, GetLines, NoLf;
    var lines := [open'] + keys + ["}"];
    BraceHasNoLf();
    GetLinesOfPrinted(lines);
    WrittenRuleLoads(START, open', name, 1);
    var opened' := Loader([], EmptyRule(name), true);
    assert lines[1..] == keys + ["}"];
    WrittenKeysLoad(opened', keys, assignments, ["}"], 2);
    var rule := AssignAll(EmptyRule(name), assignments).value;
    var closing := opened'.(current := rule);
    CloseLineLoads(closing, 2 + |keys|);
    assert ["}"][1..] == [];
    assert [] + [rule] == [rule];
    LinesKeysLength(keys, assignments);
  }

  lemma BraceHasNoLf()
    ensures NoLf("}")
  {
  }

  lemma LinesKeysLength(keys: seq<string>, assignments: seq<Assignment>)
    requires WritesKeys(keys, assignments)
    ensures |keys| == |assignments|
  {
  }

  /** A value that can be written without quotes. */
  predicate Plain(value: string) {
    '#' !in value && BareEnds(value) && !Enclosed(value)
  }

  // ---------- the demonstration rule of config/rules.dsl ----------

  const DEMO_RULE: Rule :=
    Rule(DEMO_NAME, Condition("http", "outbound", "", "post", "/api", "", 0),
         Action("", "", "", "", "", "", map["X-Trace-Id" := "dsl-trace"]))
  const DEMO_NAME: string := "http-request-header-demo"
  const DEMO_OPEN: string := "rule " + "\"" + DEMO_NAME + "\"" + " {"
  const DEMO_KEYS: seq<string> :=
    [PlainLine("when.protocol", "http"), PlainLine("when.direction", "outbound"), PlainLine("when.method", "post"),
     PlainLine("when.path_contains", "/api"), PlainLine("action.header_set." + "X-Trace-Id", "dsl-trace")]

  /** Two blanks, a key, ` = ` and a value without quotes. */
  function PlainLine(key: string, value: string): string {
    "  " + key + " = " + value
  }

  /** Lines 33 to 39 of that file load as the rule they say. */
  lemma DemoRuleLoads()
    ensures Load(WithNewlines([DEMO_OPEN] + DEMO_KEYS + ["}"])) == Loaded([DEMO_RULE], None)
  {
    hide Load, WithNewlines, WritesRule, WritesKeys, AssignAll, NoLf;
    var assignments := [
      Assignment(Protocol, "http"), Assignment(Direction, "outbound"), Assignment(Verb, "post"),
      Assignment(PathContains, "/api"), Assignment(HeaderSet("X-Trace-Id"), "dsl-trace")];
    DemoOpens();
    DemoKeysAreWritten(assignments);
    DemoRuleIsAssigned(assignments);
    DemoHasNoLf();
    WrittenBlockLoads(DEMO_OPEN, DEMO_NAME, DEMO_KEYS, assignments);
  }

  lemma DemoOpens()
    ensures WritesRule(DEMO_OPEN, DEMO_NAME)
  {
    hide DEMO_NAME;
    NoHashInDemo();
    var written := "\"" + DEMO_NAME + "\"";
    assert Writes(written, DEMO_NAME);
    assert IsBlank("") && IsBlank(" ");
    assert "" + ("rule " + ("" + written + " ") + "{") + "" == DEMO_OPEN;
  }

  lemma NoHashInDemo()
    ensures '#' !in DEMO_NAME
  {
  }

  lemma PlainKeyIsWritten(f: Field, value: string)
    requires Plain(value)
    ensures WritesKey(PlainLine(KeyText(f), value), f, value)
  {
    hide KeyText;
    assert IsBlank("") && IsBlank(" ") && IsBlank("  ");
    assert Writes(value, value);
    assert "  " + (KeyText(f) + " " + "=" + (" " + value)) + "" == PlainLine(KeyText(f), value);
  }

  lemma DemoKeysAreWritten(assignments: seq<Assignment>)
    requires assignments == [
      Assignment(Protocol, "http"), Assignment(Direction, "outbound"), Assignment(Verb, "post"),
      Assignment(PathContains, "/api"), Assignment(HeaderSet("X-Trace-Id"), "dsl-trace")]
    ensures WritesKeys(DEMO_KEYS, assignments)
  {
    hide WritesKey, KeyText, PlainLine, DEMO_KEYS, Plain;
    DemoValuesArePlain();
    PlainKeyIsWritten(Protocol, "http");
    PlainKeyIsWritten(Direction, "outbound");
    PlainKeyIsWritten(Verb, "post");
    PlainKeyIsWritten(PathContains, "/api");
    PlainKeyIsWritten(HeaderSet("X-Trace-Id"), "dsl-trace");
    DemoLines();
    assert CleanHeaderName("X-Trace-Id");
  }

  lemma DemoValuesArePlain()
    ensures Plain("http") && Plain("outbound") && Plain("post") && Plain("/api") && Plain("dsl-trace")
  {
  }

  lemma DemoLines()
    ensures DEMO_KEYS == [
      PlainLine(KeyText(Protocol), "http"), PlainLine(KeyText(Direction), "outbound"),
      PlainLine(KeyText(Verb), "post"), PlainLine(KeyText(PathContains), "/api"),
      PlainLine(KeyText(HeaderSet("X-Trace-Id")), "dsl-trace")]
  {
    hide PlainLine;
  }

  lemma DemoRuleIsAssigned(assignments: seq<Assignment>)
    requires assignments == [
      Assignment(Protocol, "http"), Assignment(Direction, "outbound"), Assignment(Verb, "post"),
      Assignment(PathContains, "/api"), Assignment(HeaderSet("X-Trace-Id"), "dsl-trace")]
    ensures AssignAll(EmptyRule(DEMO_NAME), assignments) == Some(DEMO_RULE)
  {
    hide ToLower, AssignAll;
    DemoIsLower();
    var r := EmptyRule(DEMO_NAME);
    var a, b, c, d, e := assignments[0], assignments[1], assignments[2], assignments[3], assignments[4];
    var r1 := r.(when := r.when.(protocol := "http"));
    var r2 := r1.(when := r1.when.(direction := "outbound"));
    var r3 := r2.(when := r2.when.(verb := "post"));
    var r4 := r3.(when := r3.when.(pathContains := "/api"));
    assert [a] + [b, c, d, e] == assignments && [b] + [c, d, e] == [b, c, d, e];
    assert [c] + [d, e] == [c, d, e] && [d] + [e] == [d, e] && [e] + [] == [e];
    AssignFirst(r, a, [b, c, d, e]);
    AssignFirst(r1, b, [c, d, e]);
    AssignFirst(r2, c, [d, e]);
    AssignFirst(r3, d, [e]);
    AssignFirst(r4, e, []);
    AssignNothing(DEMO_RULE);
  }

  lemma DemoIsLower()
    ensures ToLower("http") == "http" && ToLower("outbound") == "outbound" && ToLower("post") == "post"
    ensures ToLower("/api") == "/api"
  {
  }

  lemma DemoHasNoLf()
    ensures forall line | line in [DEMO_OPEN] + DEMO_KEYS :: NoLf(line)
  {
    hide PlainLine, NoLf;
    PlainHasNoLf("when.protocol", "http");
    PlainHasNoLf("when.direction", "outbound");
    PlainHasNoLf("when.method", "post");
    PlainHasNoLf("when.path_contains", "/api");
    PlainHasNoLf("action.header_set." + "X-Trace-Id", "dsl-trace");
    OpenHasNoLf(DEMO_NAME);
  }

  lemma PlainHasNoLf(key: string, value: string)
    requires '\n' !in key && '\n' !in value
    ensures NoLf(PlainLine(key, value))
  {
  }

  lemma OpenHasNoLf(name: string)
    requires '\n' !in name
    ensures NoLf("rule " + "\"" + name + "\"" + " {")
  {
  }
}
