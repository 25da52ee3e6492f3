/** Printing rules and loading them back (src/rules/rule_engine.cpp, config/rules.dsl). */
module RuleText {
  import opened Text
  import opened RuleModel
  import opened RuleDsl

  // ---------- the printer ----------

  function Quote(value: string): string {
    "\"" + value + "\""
  }

  function KeyLine(f: Field, value: string): string {
    "  " + KeyText(f) + " = " + Quote(value)
  }

  /** Every plain field, then the header settings in the given order. */
  function Assignments(r: Rule, order: seq<string>): seq<Assignment>
    requires forall i | 0 <= i < |order| :: order[i] in r.action.headerSet
  {
    seq(|FIELDS|, i requires 0 <= i < |FIELDS| => Assignment(FIELDS[i], GetText(r, FIELDS[i])))
    + seq(|order|, i requires 0 <= i < |order| => Assignment(HeaderSet(order[i]), r.action.headerSet[order[i]]))
  }

  function GetText(r: Rule, f: Field): string {
    match Get(r, f) case None => "" case Some(value) => value
  }

  function KeyLines(assignments: seq<Assignment>): seq<string> {
    seq(|assignments|, i requires 0 <= i < |assignments| => KeyLine(assignments[i].field, assignments[i].value))
  }

  function RuleLines(r: Rule, order: seq<string>): seq<string>
    requires forall i | 0 <= i < |order| :: order[i] in r.action.headerSet
  {
    ["rule " + Quote(r.name) + " {"] + KeyLines(Assignments(r, order)) + ["}"]
  }

  ghost predicate ArePrintOrders(orders: seq<seq<string>>, rules: seq<Rule>) {
    |orders| == |rules| && forall i | 0 <= i < |rules| :: IsOrder(orders[i], rules[i].action.headerSet)
  }

  ghost function AllLines(rules: seq<Rule>, orders: seq<seq<string>>): seq<string>
    requires ArePrintOrders(orders, rules)
  {
    if rules == [] then [] else RuleLines(rules[0], orders[0]) + AllLines(rules[1..], orders[1..])
  }

  function WithNewlines(lines: seq<string>): string {
    if lines == [] then "" else lines[0] + "\n" + WithNewlines(lines[1..])
  }

  ghost function Print(rules: seq<Rule>, orders: seq<seq<string>>): string
    requires ArePrintOrders(orders, rules)
  {
    WithNewlines(AllLines(rules, orders))
  }

  // ---------- what can be printed ----------

  /** No comment sign and no newline. */
  predicate CleanText(s: string) {
    forall i | 0 <= i < |s| :: s[i] != '#' && s[i] != '\n'
  }

  predicate CleanHeaderName(name: string) {
    && name != "" && CleanText(name) && '=' !in name && !IsSpace(name[|name| - 1])
  }

  predicate Printable(r: Rule) {
    && r.name != "" && CleanText(r.name)
    && (forall i | 0 <= i < |FIELDS| :: CleanText(GetText(r, FIELDS[i])))
    && (forall i | 0 <= i < |FIELDS| && IsCondition(FIELDS[i]) ::
          ToLower(GetText(r, FIELDS[i])) == GetText(r, FIELDS[i]))
    && (forall name | name in r.action.headerSet :: CleanHeaderName(name) && CleanText(r.action.headerSet[name]))
  }

  // ---------- one line ----------

  predicate KeyChars(s: string) {
    forall i | 0 <= i < |s| :: 'a' <= s[i] <= 'z' || s[i] == '.' || s[i] == '_'
  }

  lemma PlainKeyChars(f: Field)
    requires !f.HeaderSet?
    ensures KeyChars(KeyText(f)) && |KeyText(f)| >= 11
    ensures KeyText(f)[0] == 'w' || KeyText(f)[0] == 'a'
  {
    if f.TextFind? || f.TextReplace? || f.HexFind? || f.HexReplace? || f.BodyFind? || f.BodyReplace? {
      ActionKeyChars(f);
    } else {
      ConditionKeyChars(f);
    }
  }

  lemma ConditionKeyChars(f: Field)
    requires IsCondition(f) || f.RemotePort?
    ensures KeyChars(KeyText(f)) && |KeyText(f)| >= 11 && KeyText(f)[0] == 'w'
  {
  }

  lemma ActionKeyChars(f: Field)
    requires f.TextFind? || f.TextReplace? || f.HexFind? || f.HexReplace? || f.BodyFind? || f.BodyReplace?
    ensures KeyChars(KeyText(f)) && |KeyText(f)| >= 11 && KeyText(f)[0] == 'a'
  {
  }

  lemma KeyTextShape(f: Field)
    requires f.HeaderSet? ==> CleanHeaderName(f.name)
    ensures BareEnds(KeyText(f)) && CleanText(KeyText(f)) && '=' !in KeyText(f)
    ensures KeyText(f)[0] == 'w' || KeyText(f)[0] == 'a'
  {
    hide KeyText;
    if f.HeaderSet? {
      HeaderKeyShape(f.name);
    } else {
      PlainKeyChars(f);
    }
  }

  lemma HeaderKeyShape(name: string)
    requires CleanHeaderName(name)
    ensures var k := KeyText(HeaderSet(name));
            BareEnds(k) && CleanText(k) && '=' !in k && k[0] == 'a'
  {
    hide CleanText;
    var k := HEADER_PREFIX + name;
    PrefixIsClean();
    CleanConcat(HEADER_PREFIX, name);
    assert k[|k| - 1] == name[|name| - 1] && k[0] == HEADER_PREFIX[0];
    assert '=' !in HEADER_PREFIX;
  }

  lemma PrefixIsClean()
    ensures CleanText(HEADER_PREFIX)
  {
  }

  /** The keys tell the fields apart: by their length or by one of five characters. */
  lemma KeyTextsDiffer(i: nat, f: Field)
    requires i < |FIELDS| && f != FIELDS[i]
    ensures KeyText(f) != KeyText(FIELDS[i])
  {
    var a, b := KeyText(f), KeyText(FIELDS[i]);
    assert |a| >= 11 && |b| >= 11;
    assert a[0] != b[0] || a[5] != b[5] || a[7] != b[7] || a[9] != b[9] || |a| != |b|;
  }

  lemma {:induction false} FieldOfKeyFrom(f: Field, i: nat)
    requires i <= |FIELDS| && forall j | 0 <= j < i :: f != FIELDS[j]
    ensures FieldFrom(KeyText(f), i) == Some(f)
    decreases |FIELDS| - i
  {
    hide KeyText, FIELDS;
    if i == |FIELDS| {
      OnlyHeadersLeft(f);
      HeaderKeyText(f.name);
    } else if f != FIELDS[i] {
      KeyTextsDiffer(i, f);
      FieldOfKeyFrom(f, i + 1);
    }
  }

  lemma HeaderKeyText(name: string)
    ensures var k := KeyText(HeaderSet(name)); HEADER_PREFIX <= k && k[|HEADER_PREFIX|..] == name
  {
  }

  lemma OnlyHeadersLeft(f: Field)
    requires forall j | 0 <= j < |FIELDS| :: f != FIELDS[j]
    ensures f.HeaderSet?
  {
    assert f != FIELDS[0] && f != FIELDS[1] && f != FIELDS[2] && f != FIELDS[3] && f != FIELDS[4];
    assert f != FIELDS[5] && f != FIELDS[6] && f != FIELDS[7] && f != FIELDS[8] && f != FIELDS[9];
    assert f != FIELDS[10] && f != FIELDS[11] && f != FIELDS[12];
  }

  lemma CleanConcat(a: string, b: string)
    ensures CleanText(a + b) <==> CleanText(a) && CleanText(b)
  {
    if CleanText(a + b) {
      assert forall i | 0 <= i < |a| :: (a + b)[i] == a[i];
      assert forall i | 0 <= i < |b| :: (a + b)[|a| + i] == b[i];
    }
  }

  lemma NoComment(line: string)
    requires CleanText(line)
    ensures StripComment(line) == line
  {
    FindLeftmost(line, "#", 0);
    match Find(line, "#", 0)
    case None =>
    case Some(i) => AtChar(line, '#', i);
  }

  lemma UnquoteQuote(value: string)
    ensures Unquote(Quote(value)) == value && BareEnds(Quote(value))
  {
    assert Quote(value)[1..|value| + 1] == value;
  }

  /** A printed key line performs its assignment. */
  lemma KeyLineLoads(l: Loader, f: Field, value: string, number: nat)
    requires l.inRule && CleanText(value) && (f.HeaderSet? ==> CleanHeaderName(f.name))
    requires Assign(l.current, f, value).Some?
    ensures NoLf(KeyLine(f, value))
    ensures LoadLine(l, KeyLine(f, value), number) == Continue(l.(current := Assign(l.current, f, value).value))
  {
    hide Find, Trim, Assign, KeyText, FieldFrom, Quote, Unquote, CleanText, StripComment;
    var key, quoted := KeyText(f), Quote(value);
    var trimmed := key + " = " + quoted;
    KeyTextShape(f);
    QuoteIsClean(value);
    CleanConcat(key, " = ");
    CleanConcat(key + " = ", quoted);
    CleanConcat("  ", trimmed);
    PunctuationIsClean();
    assert KeyLine(f, value) == "  " + trimmed;
    NoComment("  " + trimmed);
    CleanHasNoLf("  " + trimmed);
    UnquoteQuote(value);
    assert trimmed[0] == key[0] && trimmed[|trimmed| - 1] == quoted[|quoted| - 1];
    TrimPadded(trimmed);
    assert trimmed != "}";
    FirstEquals(key, quoted);
    assert trimmed[..|key| + 1] == key + " " && trimmed[|key| + 2..] == " " + quoted;
    TrimPadded(key);
    TrimPadded(quoted);
    FieldOfKeyFrom(f, 0);
  }

  lemma FirstEquals(key: string, quoted: string)
    requires '=' !in key
    ensures Find(key + " = " + quoted, "=", 0) == Some(|key| + 1)
  {
    hide Find, At;
    var t := key + " = " + quoted;
    AtChar(t, '=', |key| + 1);
    forall j: nat | j < |key| + 1 ensures !At(t, "=", j) {
      AtChar(t, '=', j);
      if j < |key| { assert t[j] == key[j]; }
    }
    FindIs(t, "=", 0, |key| + 1);
  }

  lemma QuoteIsClean(value: string)
    requires CleanText(value)
    ensures CleanText(Quote(value))
  {
  }

  lemma PunctuationIsClean()
    ensures CleanText("  ") && CleanText(" = ") && CleanText(" {") && CleanText("rule ") && CleanText("}")
  {
  }

  lemma CleanHasNoLf(s: string)
    requires CleanText(s)
    ensures NoLf(s)
  {
  }

  /** A printed declaration opens its rule. */
  lemma RuleLineLoads(l: Loader, name: string, number: nat)
    requires !l.inRule && name != "" && CleanText(name)
    ensures LoadLine(l, "rule " + Quote(name) + " {", number) == Continue(Loader(l.rules, EmptyRule(name), true))
  {
    hide Find, Trim, Quote, Unquote, CleanText, StripComment;
    var quoted := Quote(name);
    var line := "rule " + quoted + " {";
    QuoteIsClean(name);
    PunctuationIsClean();
    CleanConcat("rule ", quoted);
    CleanConcat("rule " + quoted, " {");
    NoComment(line);
    UnquoteQuote(name);
    TrimPadded(line);
    var rest := quoted + " {";
    assert line[5..] == rest;
    TrimPadded(rest);
    assert rest[..|rest| - 1] == quoted + " ";
    TrimPadded(quoted);
  }

  lemma CloseLineLoads(l: Loader, number: nat)
    requires l.inRule
    ensures LoadLine(l, "}", number) == Continue(Loader(l.rules + [l.current], EmptyRule(""), false))
  {
    hide Trim, StripComment;
    PunctuationIsClean();
    NoComment("}");
    TrimPadded("}");
  }

  /** Layout does not matter: any run of blanks and tabs around a line, and a comment behind it, change
      nothing. */
  lemma LayoutIsIrrelevant(l: Loader, before: string, line: string, after: string, comment: string, number: nat)
    requires '#' !in line && IsBlank(before) && IsBlank(after)
    ensures LoadLine(l, before + line + after, number) == LoadLine(l, line, number)
    ensures LoadLine(l, before + line + after + "#" + comment, number) == LoadLine(l, line, number)
  {
    hide Trim, StripComment, OpenRule, SetField;
    StripAtSign(line, comment);
    StripAtSign(before + line + after, comment);
    TrimBlanks(before, line, after);
  }

  lemma StripAtSign(line: string, comment: string)
    requires '#' !in line
    ensures StripComment(line + "#" + comment) == line && StripComment(line) == line
  {
    hide Find, At;
    var text := line + "#" + comment;
    AtChar(text, '#', |line|);
    forall j: nat | j < |line| ensures !At(text, "#", j) && !At(line, "#", j) {
      assert text[j] == line[j];
      AtChar(text, '#', j);
      AtChar(line, '#', j);
    }
    FindIs(text, "#", 0, |line|);
    AtChar(line, '#', |line|);
    FindIsNone(line, "#", 0);
  }

  // ---------- one block ----------

  ghost predicate CleanAssignments(assignments: seq<Assignment>) {
    forall i | 0 <= i < |assignments| ::
      CleanText(assignments[i].value)
      && (assignments[i].field.HeaderSet? ==> CleanHeaderName(assignments[i].field.name))
  }

  lemma {:induction false} KeyLinesLoad(l: Loader, assignments: seq<Assignment>, rest: seq<string>, number: nat)
    requires l.inRule && CleanAssignments(assignments) && AssignAll(l.current, assignments).Some?
    ensures LoadLines(l, KeyLines(assignments) + rest, number) ==
            LoadLines(l.(current := AssignAll(l.current, assignments).value), rest, number + |assignments|)
    decreases |assignments|
  {
    hide LoadLine, KeyLine, Assign, CleanHeaderName, CleanText;
    if assignments == [] {
      assert KeyLines(assignments) + rest == rest;
    } else {
      var front, last := assignments[..|assignments| - 1], assignments[|assignments| - 1];
      var line := KeyLine(last.field, last.value);
      KeyLinesLoad(l, front, [line] + rest, number);
      assert KeyLines(assignments) + rest == KeyLines(front) + ([line] + rest);
      KeyLineLoads(l.(current := AssignAll(l.current, front).value), last.field, last.value, number + |front|);
      assert ([line] + rest)[1..] == rest;
    }
  }

  lemma {:induction false} LastWriteUniform(assignments: seq<Assignment>, f: Field, value: Option<string>)
    requires exists i | 0 <= i < |assignments| :: assignments[i].field == f
    requires forall i | 0 <= i < |assignments| && assignments[i].field == f :: Stored(f, assignments[i].value) == value
    ensures LastWrite(assignments, f) == value
  {
    hide Stored;
    var front, last := assignments[..|assignments| - 1], assignments[|assignments| - 1];
    if last.field != f {
      var i :| 0 <= i < |assignments| && assignments[i].field == f;
      assert front[i].field == f;
      LastWriteUniform(front, f, value);
    }
  }

  lemma PlainFieldIndex(f: Field) returns (i: nat)
    requires !f.HeaderSet?
    ensures i < |FIELDS| && FIELDS[i] == f
  {
    if forall j | 0 <= j < |FIELDS| :: f != FIELDS[j] { OnlyHeadersLeft(f); }
    i :| i < |FIELDS| && FIELDS[i] == f;
  }

  lemma FieldsArePlain(i: nat)
    requires i < |FIELDS|
    ensures !FIELDS[i].HeaderSet?
  {
  }

  /** A printed field is stored as it was. */
  lemma StoredAsPrinted(r: Rule, f: Field)
    requires Printable(r) && Get(r, f).Some?
    ensures Stored(f, GetText(r, f)) == Get(r, f)
  {
    hide ParseUnsigned, Decimal, CleanText, CleanHeaderName;
    if f == RemotePort {
      ParseDecimal(r.when.remotePort, ULONG_MAX);
    } else if IsCondition(f) {
      var i := PlainFieldIndex(f);
      assert IsCondition(FIELDS[i]);
    }
  }

  /** Performing the printed assignments of a rule on an empty rule gives the rule. */
  lemma AssignmentsRebuild(r: Rule, order: seq<string>)
    requires Printable(r) && IsOrder(order, r.action.headerSet)
    ensures AssignAll(EmptyRule(r.name), Assignments(r, order)) == Some(r)
  {
    hide Assign, Stored, Get, Printable;
    var assignments := Assignments(r, order);
    forall i | 0 <= i < |assignments|
      ensures Get(r, assignments[i].field).Some? && assignments[i].value == GetText(r, assignments[i].field)
      ensures Stored(assignments[i].field, assignments[i].value) == Get(r, assignments[i].field)
    {
      AssignmentIsGet(r, order, i);
      StoredAsPrinted(r, assignments[i].field);
    }
    LastAssigned(EmptyRule(r.name), assignments, Protocol);
    var s := AssignAll(EmptyRule(r.name), assignments).value;
    forall f ensures Get(s, f) == Get(r, f) {
      LastAssigned(EmptyRule(r.name), assignments, f);
      if exists i | 0 <= i < |assignments| :: assignments[i].field == f {
        LastWriteUniform(assignments, f, Get(r, f));
      } else {
        NeverAssigned(r, order, f);
      }
    }
    SameFieldsSameRule(s, r);
  }

  lemma AssignmentIsGet(r: Rule, order: seq<string>, i: nat)
    requires IsOrder(order, r.action.headerSet) && i < |Assignments(r, order)|
    ensures var a := Assignments(r, order)[i]; Get(r, a.field).Some? && a.value == GetText(r, a.field)
  {
    hide Decimal;
    if i < |FIELDS| { FieldsArePlain(i); }
  }

  /** Every field the rule has is printed. */
  lemma AssignedField(r: Rule, order: seq<string>, f: Field) returns (i: nat)
    requires IsOrder(order, r.action.headerSet) && (f.HeaderSet? ==> f.name in r.action.headerSet)
    ensures i < |Assignments(r, order)| && Assignments(r, order)[i].field == f
  {
    hide GetText;
    if f.HeaderSet? {
      i :| 0 <= i < |order| && order[i] == f.name;
      i := i + |FIELDS|;
    } else {
      i := PlainFieldIndex(f);
    }
  }

  lemma NeverAssigned(r: Rule, order: seq<string>, f: Field)
    requires IsOrder(order, r.action.headerSet)
    requires forall i | 0 <= i < |Assignments(r, order)| :: Assignments(r, order)[i].field != f
    ensures Get(r, f) == Get(EmptyRule(r.name), f)
  {
    hide Assignments, Decimal;
    if f.HeaderSet? ==> f.name in r.action.headerSet {
      var i := AssignedField(r, order, f);
    }
  }

  lemma AssignmentsAreClean(r: Rule, order: seq<string>)
    requires Printable(r) && IsOrder(order, r.action.headerSet)
    ensures CleanAssignments(Assignments(r, order))
  {
    hide GetText, CleanText, CleanHeaderName;
    var assignments := Assignments(r, order);
    forall i | 0 <= i < |assignments|
      ensures CleanText(assignments[i].value)
      ensures assignments[i].field.HeaderSet? ==> CleanHeaderName(assignments[i].field.name)
    {
      if i < |FIELDS| { FieldsArePlain(i); }
    }
  }

  lemma RuleLinesLoad(rules: seq<Rule>, current: Rule, r: Rule, order: seq<string>, rest: seq<string>, number: nat)
    requires Printable(r) && IsOrder(order, r.action.headerSet)
    ensures LoadLines(Loader(rules, current, false), RuleLines(r, order) + rest, number) ==
            LoadLines(Loader(rules + [r], EmptyRule(""), false), rest, number + |RuleLines(r, order)|)
  {
    hide LoadLine, Assignments, AssignAll, KeyLines, Quote;
    var l := Loader(rules, current, false);
    var lines := RuleLines(r, order) + rest;
    RuleLineLoads(l, r.name, number);
    var inside := Loader(rules, EmptyRule(r.name), true);
    var keys := KeyLines(Assignments(r, order));
    assert lines[1..] == keys + (["}"] + rest);
    AssignmentsAreClean(r, order);
    AssignmentsRebuild(r, order);
    KeyLinesLoad(inside, Assignments(r, order), ["}"] + rest, number + 1);
    KeyLineCount(Assignments(r, order));
    CloseLineLoads(inside.(current := r), number + 1 + |keys|);
    assert (["}"] + rest)[1..] == rest;
  }

  lemma KeyLineCount(assignments: seq<Assignment>)
    ensures |KeyLines(assignments)| == |assignments|
  {
  }

  // ---------- the whole file ----------

  lemma {:induction false} AllLinesLoad(before: seq<Rule>, current: Rule, rules: seq<Rule>,
                                        orders: seq<seq<string>>, number: nat)
    requires ArePrintOrders(orders, rules) && forall i | 0 <= i < |rules| :: Printable(rules[i])
    ensures LoadLines(Loader(before, current, false), AllLines(rules, orders), number) == Loaded(before + rules, None)
    decreases |rules|
  {
    hide RuleLines, LoadLine, Printable;
    if rules == [] {
      assert before + rules == before;
    } else {
      RuleLinesLoad(before, current, rules[0], orders[0], AllLines(rules[1..], orders[1..]), number);
      AllLinesLoad(before + [rules[0]], EmptyRule(""), rules[1..], orders[1..],
        number + |RuleLines(rules[0], orders[0])|);
      assert before + [rules[0]] + rules[1..] == before + rules;
    }
  }

  lemma {:induction false} GetLinesOfPrinted(lines: seq<string>)
    requires forall i | 0 <= i < |lines| :: NoLf(lines[i])
    ensures GetLines(WithNewlines(lines)) == lines
  {
    if lines != [] {
      GetLinesOfPrinted(lines[1..]);
      hide GetLines;
      GetLinesCons(lines[0], WithNewlines(lines[1..]));
    }
  }

  lemma RuleLinesHaveNoLf(r: Rule, order: seq<string>)
    requires Printable(r) && IsOrder(order, r.action.headerSet)
    ensures forall i | 0 <= i < |RuleLines(r, order)| :: NoLf(RuleLines(r, order)[i])
  {
    hide Assignments, KeyLines, Quote, NoLf, CleanText, CleanHeaderName;
    AssignmentsAreClean(r, order);
    var keys := KeyLines(Assignments(r, order));
    KeyLinesHaveNoLf(Assignments(r, order));
    RuleLineHasNoLf(r.name);
    PunctuationIsClean();
    CleanHasNoLf("}");
    var lines := RuleLines(r, order);
    forall i | 0 <= i < |lines| ensures NoLf(lines[i]) {
      if 1 <= i <= |keys| { assert lines[i] == keys[i - 1]; }
    }
  }

  lemma RuleLineHasNoLf(name: string)
    requires CleanText(name)
    ensures NoLf("rule " + Quote(name) + " {")
  {
    hide Quote, CleanText;
    QuoteIsClean(name);
    PunctuationIsClean();
    CleanConcat("rule ", Quote(name));
    CleanConcat("rule " + Quote(name), " {");
    CleanHasNoLf("rule " + Quote(name) + " {");
  }

  lemma KeyLinesHaveNoLf(assignments: seq<Assignment>)
    requires CleanAssignments(assignments)
    ensures forall i | 0 <= i < |KeyLines(assignments)| :: NoLf(KeyLines(assignments)[i])
  {
    hide NoLf, KeyLine, CleanText, CleanHeaderName;
    forall i | 0 <= i < |assignments| ensures NoLf(KeyLine(assignments[i].field, assignments[i].value)) {
      KeyLineHasNoLf(assignments[i].field, assignments[i].value);
    }
  }

  lemma KeyLineHasNoLf(f: Field, value: string)
    requires CleanText(value) && (f.HeaderSet? ==> CleanHeaderName(f.name))
    ensures NoLf(KeyLine(f, value))
  {
    hide CleanText, KeyText, Quote;
    KeyTextShape(f);
    QuoteIsClean(value);
    PunctuationIsClean();
    CleanConcat("  ", KeyText(f));
    CleanConcat("  " + KeyText(f), " = ");
    CleanConcat("  " + KeyText(f) + " = ", Quote(value));
    CleanHasNoLf(KeyLine(f, value));
  }

  lemma {:induction false} AllLinesHaveNoLf(rules: seq<Rule>, orders: seq<seq<string>>)
    requires ArePrintOrders(orders, rules) && forall i | 0 <= i < |rules| :: Printable(rules[i])
    ensures forall i | 0 <= i < |AllLines(rules, orders)| :: NoLf(AllLines(rules, orders)[i])
    decreases |rules|
  {
    hide RuleLines, NoLf, Printable;
    if rules != [] {
      RuleLinesHaveNoLf(rules[0], orders[0]);
      AllLinesHaveNoLf(rules[1..], orders[1..]);
    }
  }

  /** Round trip: printable rules, printed with their headers in any order, load back as themselves. */
  lemma PrintThenLoad(rules: seq<Rule>, orders: seq<seq<string>>)
    requires ArePrintOrders(orders, rules) && forall i | 0 <= i < |rules| :: Printable(rules[i])
    ensures Load(Print(rules, orders)) == Loaded(rules, None)
  {
    hide AllLines, LoadLines, Printable, GetLines, ArePrintOrders;
    AllLinesHaveNoLf(rules, orders);
    GetLinesOfPrinted(AllLines(rules, orders));
    AllLinesLoad([], EmptyRule(""), rules, orders, 1);
    assert [] + rules == rules;
  }

  // ---------- every loaded rule is printable ----------

  ghost predicate LoaderPrintable(l: Loader) {
    && (forall i | 0 <= i < |l.rules| :: Printable(l.rules[i]))
    && (l.inRule ==> Printable(l.current))
  }

  lemma CleanSlice(s: string, i: nat, j: nat)
    requires CleanText(s) && i <= j <= |s|
    ensures CleanText(s[i..j])
  {
  }

  lemma TrimClean(s: string)
    requires CleanText(s)
    ensures CleanText(Trim(s))
  {
    hide Trim, CleanText;
    TrimShape(s);
    var i, j :| 0 <= i <= j <= |s| && Trim(s) == s[i..j];
    CleanSlice(s, i, j);
  }

  lemma UnquoteClean(s: string)
    requires CleanText(s)
    ensures CleanText(Unquote(s))
  {
    if |s| >= 2 { CleanSlice(s, 1, |s| - 1); }
  }

  lemma LowerClean(s: string)
    requires CleanText(s)
    ensures CleanText(ToLower(s)) && ToLower(ToLower(s)) == ToLower(s)
  {
    ToLowerIdempotent(s);
  }

  lemma StrippedIsClean(line: string)
    requires NoLf(line)
    ensures CleanText(StripComment(line))
  {
    FindLeftmost(line, "#", 0);
    var end := match Find(line, "#", 0) case None => |line| case Some(i) => i;
    forall i: nat | i < end ensures line[i] != '#' && line[i] != '\n' {
      AtChar(line, '#', i);
    }
  }

  lemma EmptyRulePrintable(name: string)
    requires name != "" && CleanText(name)
    ensures Printable(EmptyRule(name))
  {
    hide Decimal, CleanText;
    var r := EmptyRule(name);
    DecimalIsClean(0);
    NothingIsClean();
    forall i | 0 <= i < |FIELDS|
      ensures CleanText(GetText(r, FIELDS[i]))
      ensures IsCondition(FIELDS[i]) ==> ToLower(GetText(r, FIELDS[i])) == GetText(r, FIELDS[i])
    {
      FieldsArePlain(i);
    }
  }

  lemma NothingIsClean()
    ensures CleanText("") && ToLower("") == ""
  {
  }

  lemma DecimalIsClean(n: nat)
    ensures CleanText(Decimal(n))
  {
    hide Decimal;
    assert forall i | 0 <= i < |Decimal(n)| :: IsDigit(Decimal(n)[i]);
  }

  lemma StoredIsClean(f: Field, value: string)
    requires CleanText(value) && Stored(f, value).Some?
    ensures CleanText(Stored(f, value).value)
    ensures IsCondition(f) ==> ToLower(Stored(f, value).value) == Stored(f, value).value
  {
    hide Decimal, ParseUnsigned, CleanText;
    if IsCondition(f) {
      LowerClean(value);
    } else if f == RemotePort {
      DecimalIsClean(ParseU16(value).value);
    }
  }

  lemma AssignPrintable(r: Rule, f: Field, value: string)
    requires Printable(r) && CleanText(value) && (f.HeaderSet? ==> CleanHeaderName(f.name))
    requires Assign(r, f, value).Some?
    ensures Printable(Assign(r, f, value).value)
  {
    hide Assign, Stored, CleanText, CleanHeaderName;
    var s := Assign(r, f, value).value;
    AssignGet(r, f, value, f);
    StoredIsClean(f, value);
    forall i | 0 <= i < |FIELDS|
      ensures CleanText(GetText(s, FIELDS[i]))
      ensures IsCondition(FIELDS[i]) ==> ToLower(GetText(s, FIELDS[i])) == GetText(s, FIELDS[i])
    {
      AssignGet(r, f, value, FIELDS[i]);
    }
    forall name | name in s.action.headerSet
      ensures CleanHeaderName(name) && CleanText(s.action.headerSet[name])
    {
      AssignGet(r, f, value, HeaderSet(name));
      assert Get(s, HeaderSet(name)) == Some(s.action.headerSet[name]);
      if f != HeaderSet(name) { assert Get(r, HeaderSet(name)) == Some(s.action.headerSet[name]); }
    }
  }

  lemma {:induction false} FieldFromKey(key: string, i: nat)
    requires i <= |FIELDS| && FieldFrom(key, i).Some?
    ensures KeyText(FieldFrom(key, i).value) == key
    decreases |FIELDS| - i
  {
    hide KeyText;
    if i == |FIELDS| {
      HeaderKey(key);
    } else if key != KeyText(FIELDS[i]) {
      FieldFromKey(key, i + 1);
    }
  }

  /** The key of a plain field finds that field; any other key can only set a header. */
  lemma WhichField(key: string)
    ensures forall f: Field | !f.HeaderSet? && key == KeyText(f) :: FieldFrom(key, 0) == Some(f)
    ensures (forall f: Field | !f.HeaderSet? :: key != KeyText(f)) ==>
              FieldFrom(key, 0) == if HEADER_PREFIX <= key then Some(HeaderSet(key[|HEADER_PREFIX|..])) else None
  {
    hide FieldFrom, FIELDS;
    forall f: Field | key == KeyText(f) ensures FieldFrom(key, 0) == Some(f) { FieldOfKeyFrom(f, 0); }
    if FieldFrom(key, 0).Some? { FieldFromKey(key, 0); }
    if HEADER_PREFIX <= key {
      assert key == KeyText(HeaderSet(key[|HEADER_PREFIX|..]));
    }
  }

  /** The loader's comparisons of a key, in their order, name its field. */
  lemma KeyTable(key: string)
    ensures FieldFrom(key, 0) ==
            if key == "when.protocol" then Some(Protocol)
            else if key == "when.direction" then Some(Direction)
            else if key == "when.host_contains" then Some(HostContains)
            else if key == "when.method" then Some(Verb)
            else if key == "when.path_contains" then Some(PathContains)
            else if key == "when.process" then Some(Process)
            else if key == "when.remote_port" then Some(RemotePort)
            else if key == "action.text_find" then Some(TextFind)
            else if key == "action.text_replace" then Some(TextReplace)
            else if key == "action.hex_find" then Some(HexFind)
            else if key == "action.hex_replace" then Some(HexReplace)
            else if key == "action.body_find" then Some(BodyFind)
            else if key == "action.body_replace" then Some(BodyReplace)
            else if HEADER_PREFIX <= key then Some(HeaderSet(key[|HEADER_PREFIX|..]))
            else None
  {
    hide FieldFrom, HEADER_PREFIX;
    WhichField(key);
    assert KeyText(Protocol) == "when.protocol" && KeyText(Direction) == "when.direction";
    assert KeyText(HostContains) == "when.host_contains" && KeyText(Verb) == "when.method";
    assert KeyText(PathContains) == "when.path_contains" && KeyText(Process) == "when.process";
    assert KeyText(RemotePort) == "when.remote_port" && KeyText(TextFind) == "action.text_find";
    assert KeyText(TextReplace) == "action.text_replace" && KeyText(HexFind) == "action.hex_find";
    assert KeyText(HexReplace) == "action.hex_replace" && KeyText(BodyFind) == "action.body_find";
    assert KeyText(BodyReplace) == "action.body_replace";
    hide KeyText;
    assert forall f: Field | !f.HeaderSet? ::
        f in {Protocol, Direction, HostContains, Verb, PathContains, Process, RemotePort,
              TextFind, TextReplace, HexFind, HexReplace, BodyFind, BodyReplace};
  }

  predicate IsWhen(f: Field) {
    IsCondition(f) || f.RemotePort?
  }

  /** Only a port can fail to be assigned, and only the bare prefix names the empty header. */
  lemma PlainAssignSucceeds(current: Rule, key: string, value: string)
    ensures FieldFrom(key, 0).Some? && !IsWhen(FieldFrom(key, 0).value) ==>
              Assign(current, FieldFrom(key, 0).value, value).Some?
    ensures FieldFrom(key, 0) == Some(HeaderSet("")) <==> key == HEADER_PREFIX
  {
    hide FieldFrom;
    if FieldFrom(key, 0) == Some(HeaderSet("")) { FieldFromKey(key, 0); }
    assert KeyText(HeaderSet("")) == HEADER_PREFIX;
    FieldOfKeyFrom(HeaderSet(""), 0);
  }

  lemma HeaderKey(key: string)
    requires HEADER_PREFIX <= key
    ensures KeyText(HeaderSet(key[|HEADER_PREFIX|..])) == key
  {
  }

  /** A header name that the loader accepts has no '=', no comment sign and no trailing space. */
  lemma LoadedHeaderName(trimmed: string, i: nat, f: Field)
    requires CleanText(trimmed) && Find(trimmed, "=", 0) == Some(i)
    requires FieldFrom(Trim(trimmed[..i]), 0) == Some(f) && f.HeaderSet? && f != HeaderSet("")
    ensures CleanHeaderName(f.name)
  {
    hide Find, Trim, FieldFrom, CleanText, At;
    var key := Trim(trimmed[..i]);
    CleanSlice(trimmed, 0, i);
    assert trimmed[..i] == trimmed[0..i];
    TrimClean(trimmed[..i]);
    FieldFromKey(key, 0);
    assert key == HEADER_PREFIX + f.name;
    CleanSlice(key, |HEADER_PREFIX|, |key|);
    assert key[|HEADER_PREFIX|..|key|] == f.name;
    FindLeftmost(trimmed, "=", 0);
    forall j: nat | j < i ensures trimmed[..i][j] != '=' { AtChar(trimmed, '=', j); }
    TrimShape(trimmed[..i]);
    var a, b :| 0 <= a <= b <= |trimmed[..i]| && key == trimmed[..i][a..b];
    forall j | 0 <= j < |f.name| ensures f.name[j] != '=' {
      assert f.name[j] == key[|HEADER_PREFIX| + j] == trimmed[..i][a + |HEADER_PREFIX| + j];
    }
    assert f.name[|f.name| - 1] == key[|key| - 1];
  }

  lemma SetFieldPrintable(l: Loader, trimmed: string, number: nat)
    requires LoaderPrintable(l) && l.inRule && CleanText(trimmed) && SetField(l, trimmed, number).Continue?
    ensures LoaderPrintable(SetField(l, trimmed, number).loader)
  {
    hide Find, Trim, FieldFrom, Assign, Unquote, Printable, CleanText, CleanHeaderName;
    var i := Find(trimmed, "=", 0).value;
    var key, value := Trim(trimmed[..i]), Unquote(Trim(trimmed[i + 1..]));
    var f := FieldFrom(key, 0).value;
    CleanSlice(trimmed, i + 1, |trimmed|);
    assert trimmed[i + 1..] == trimmed[i + 1..|trimmed|];
    TrimClean(trimmed[i + 1..]);
    UnquoteClean(Trim(trimmed[i + 1..]));
    if f.HeaderSet? { LoadedHeaderName(trimmed, i, f); }
    AssignPrintable(l.current, f, value);
  }

  lemma OpenRulePrintable(l: Loader, trimmed: string, number: nat)
    requires LoaderPrintable(l) && CleanText(trimmed) && OpenRule(l, trimmed, number).Continue?
    ensures LoaderPrintable(OpenRule(l, trimmed, number).loader)
  {
    hide Trim, Unquote, Printable, CleanText;
    var rest := Trim(trimmed[5..]);
    CleanSlice(trimmed, 5, |trimmed|);
    assert trimmed[5..] == trimmed[5..|trimmed|];
    TrimClean(trimmed[5..]);
    CleanSlice(rest, 0, |rest| - 1);
    assert rest[..|rest| - 1] == rest[0..|rest| - 1];
    TrimClean(rest[..|rest| - 1]);
    UnquoteClean(Trim(rest[..|rest| - 1]));
    EmptyRulePrintable(Unquote(Trim(rest[..|rest| - 1])));
  }

  lemma LoadLinePrintable(l: Loader, line: string, number: nat)
    requires LoaderPrintable(l) && NoLf(line) && LoadLine(l, line, number).Continue?
    ensures LoaderPrintable(LoadLine(l, line, number).loader)
  {
    hide Trim, StripComment, OpenRule, SetField, Printable, CleanText;
    StrippedIsClean(line);
    TrimClean(StripComment(line));
    var trimmed := Trim(StripComment(line));
    if trimmed != "" {
      if !l.inRule { OpenRulePrintable(l, trimmed, number); }
      else if trimmed != "}" { SetFieldPrintable(l, trimmed, number); }
    }
  }

  lemma {:induction false} LoadLinesPrintable(l: Loader, lines: seq<string>, number: nat)
    requires LoaderPrintable(l) && forall i | 0 <= i < |lines| :: NoLf(lines[i])
    ensures forall i | 0 <= i < |LoadLines(l, lines, number).rules| :: Printable(LoadLines(l, lines, number).rules[i])
    decreases |lines|
  {
    hide LoadLine, Printable;
    if lines != [] && LoadLine(l, lines[0], number).Continue? {
      LoadLinePrintable(l, lines[0], number);
      LoadLinesPrintable(LoadLine(l, lines[0], number).loader, lines[1..], number + 1);
    }
  }

  /** Whatever the file holds, and even when loading stops at an error, every rule that was loaded is
      printable. */
  lemma LoadedArePrintable(text: string)
    ensures forall i | 0 <= i < |Load(text).rules| :: Printable(Load(text).rules[i])
  {
    hide LoadLines, GetLines, Printable;
    GetLinesHaveNoLf(text);
    forall i | 0 <= i < |GetLines(text)| ensures NoLf(GetLines(text)[i]) {
      assert GetLines(text)[i] in GetLines(text);
    }
    LoadLinesPrintable(START, GetLines(text), 1);
  }

  // ---------- main results ----------

  /** Exactly the printable rules survive printing and loading. */
  lemma RoundTripIffPrintable(rules: seq<Rule>, orders: seq<seq<string>>)
    requires ArePrintOrders(orders, rules)
    ensures Load(Print(rules, orders)) == Loaded(rules, None) <==> forall i | 0 <= i < |rules| :: Printable(rules[i])
  {
    hide Load, Print, Printable, ArePrintOrders;
    LoadedArePrintable(Print(rules, orders));
    if forall i | 0 <= i < |rules| :: Printable(rules[i]) {
      PrintThenLoad(rules, orders);
    }
  }

  /** Loading, printing and loading again gives the same rules, with no hypothesis on the file. */
  lemma ReloadIsStable(text: string, orders: seq<seq<string>>)
    requires ArePrintOrders(orders, Load(text).rules)
    ensures Load(Print(Load(text).rules, orders)) == Loaded(Load(text).rules, None)
  {
    hide Load, Print, Printable, ArePrintOrders;
    LoadedArePrintable(text);
    PrintThenLoad(Load(text).rules, orders);
  }
}
