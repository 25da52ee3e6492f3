/** The rule file language: the line-by-line loader (src/rules/rule_engine.cpp) and its printer. */
module RuleDsl {
  import opened Text
  import opened RuleModel

  // ---------- fields ----------

  datatype Field =
    | Protocol | Direction | HostContains | Verb | PathContains | Process | RemotePort
    | TextFind | TextReplace | HexFind | HexReplace | BodyFind | BodyReplace
    | HeaderSet(name: string)

  const HEADER_PREFIX: string := "action.header_set."

  function KeyText(f: Field): string {
    match f
    case Protocol => "when.protocol"
    case Direction => "when.direction"
    case HostContains => "when.host_contains"
    case Verb => "when.method"
    case PathContains => "when.path_contains"
    case Process => "when.process"
    case RemotePort => "when.remote_port"
    case TextFind => "action.text_find"
    case TextReplace => "action.text_replace"
    case HexFind => "action.hex_find"
    case HexReplace => "action.hex_replace"
    case BodyFind => "action.body_find"
    case BodyReplace => "action.body_replace"
    case HeaderSet(name) => HEADER_PREFIX + name
  }

  /** The fields other than header settings, in the order the loader tests their keys. */
  const FIELDS: seq<Field> :=
    [Protocol, Direction, HostContains, Verb, PathContains, Process, RemotePort,
     TextFind, TextReplace, HexFind, HexReplace, BodyFind, BodyReplace]

  function FieldFrom(key: string, i: nat): Option<Field>
    requires i <= |FIELDS|
    decreases |FIELDS| - i
  {
    if i == |FIELDS| then
      if HEADER_PREFIX <= key then Some(HeaderSet(key[|HEADER_PREFIX|..])) else None
    else if key == KeyText(FIELDS[i]) then Some(FIELDS[i])
    else FieldFrom(key, i + 1)
  }

  function EmptyRule(name: string): Rule {
    Rule(name, Condition("", "", "", "", "", "", 0), Action("", "", "", "", "", "", map[]))
  }

  function ParseU16(text: string): Option<Port> {
    match ParseUnsigned(text, ULONG_MAX)
    case None => None
    case Some(n) => if n > 65535 then None else Some(n)
  }

  /** A port is what `stoul` reads, text behind the digits ignored, when that is at most 65535. A minus
      wraps around at 32 bits, so only numbers just below 4294967296 can be written with it. */
  lemma SpelledPort(pad: string, sign: string, digits: string, rest: string)
    requires Spelling(pad, sign, digits, rest) && AllDigits(digits)
    ensures var v := DecimalValue(digits);
            ParseU16(pad + (sign + (digits + rest))) ==
              if digits == "" || v > 4294967295 then None
              else if sign == "-" && v > 0 then (if 4294967296 - v <= 65535 then Some(4294967296 - v) else None)
              else if v <= 65535 then Some(v) else None
  {
    hide ParseUnsigned, DecimalValue, Spelling;
    ParseSpelled(pad, sign, digits, rest, ULONG_MAX);
  }

  /** Conditions are lower-cased; `None` is an unreadable port. */
  function Assign(r: Rule, f: Field, value: string): Option<Rule> {
    var w, a := r.when, r.action;
    match f
    case Protocol => Some(r.(when := w.(protocol := ToLower(value))))
    case Direction => Some(r.(when := w.(direction := ToLower(value))))
    case HostContains => Some(r.(when := w.(hostContains := ToLower(value))))
    case Verb => Some(r.(when := w.(verb := ToLower(value))))
    case PathContains => Some(r.(when := w.(pathContains := ToLower(value))))
    case Process => Some(r.(when := w.(processName := ToLower(value))))
    case RemotePort =>
      (match ParseU16(value)
       case None => None
       case Some(port) => Some(r.(when := w.(remotePort := port))))
    case TextFind => Some(r.(action := a.(textFind := value)))
    case TextReplace => Some(r.(action := a.(textReplace := value)))
    case HexFind => Some(r.(action := a.(hexFind := value)))
    case HexReplace => Some(r.(action := a.(hexReplace := value)))
    case BodyFind => Some(r.(action := a.(bodyFind := value)))
    case BodyReplace => Some(r.(action := a.(bodyReplace := value)))
    case HeaderSet(name) => Some(r.(action := a.(headerSet := a.headerSet[name := value])))
  }

  // ---------- the loader ----------

  datatype LoadError =
    | CannotOpen | ExpectedRule(line: nat) | ExpectedBrace(line: nat) | EmptyName(line: nat)
    | ExpectedKeyValue(line: nat) | InvalidPort(line: nat) | EmptyHeaderName(line: nat)
    | UnknownKey(line: nat, key: string) | Unterminated

  datatype Loader = Loader(rules: seq<Rule>, current: Rule, inRule: bool)

  datatype LineResult = Continue(loader: Loader) | Stop(error: LoadError)

  function StripComment(line: string): string {
    match Find(line, "#", 0) case None => line case Some(i) => line[..i]
  }

  function Unquote(text: string): string {
    if |text| >= 2 && ((text[0] == '"' && text[|text| - 1] == '"') || (text[0] == '\'' && text[|text| - 1] == '\''))
    then text[1..|text| - 1]
    else text
  }

  /** `rule "name" {` outside a rule. */
  function OpenRule(l: Loader, trimmed: string, number: nat): LineResult {
    if !("rule " <= trimmed) then Stop(ExpectedRule(number))
    else
      var rest := Trim(trimmed[5..]);
      if rest == "" || rest[|rest| - 1] != '{' then Stop(ExpectedBrace(number))
      else
        var name := Unquote(Trim(rest[..|rest| - 1]));
        if name == "" then Stop(EmptyName(number))
        else Continue(Loader(l.rules, EmptyRule(name), true))
  }

  /** `key = value` inside a rule. */
  function SetField(l: Loader, trimmed: string, number: nat): LineResult {
    match Find(trimmed, "=", 0)
    case None => Stop(ExpectedKeyValue(number))
    case Some(i) => SetKey(l, Trim(trimmed[..i]), Unquote(Trim(trimmed[i + 1..])), number)
  }

  function SetKey(l: Loader, key: string, value: string, number: nat): LineResult {
    match FieldFrom(key, 0)
    case None => Stop(UnknownKey(number, key))
    case Some(f) =>
      if f == HeaderSet("") then Stop(EmptyHeaderName(number))
      else
        match Assign(l.current, f, value)
        case None => Stop(InvalidPort(number))
        case Some(r) => Continue(l.(current := r))
  }

  function LoadLine(l: Loader, line: string, number: nat): LineResult {
    var trimmed := Trim(StripComment(line));
    if trimmed == "" then Continue(l)
    else if !l.inRule then OpenRule(l, trimmed, number)
    else if trimmed == "}" then Continue(Loader(l.rules + [l.current], EmptyRule(""), false))
    else SetField(l, trimmed, number)
  }

  /** What loading leaves behind: the finished rules, also after an error. */
  datatype Loaded = Loaded(rules: seq<Rule>, error: Option<LoadError>)

  function LoadLines(l: Loader, lines: seq<string>, number: nat): Loaded
    decreases |lines|
  {
    if lines == [] then Loaded(l.rules, if l.inRule then Some(Unterminated) else None)
    else
      match LoadLine(l, lines[0], number)
      case Stop(error) => Loaded(l.rules, Some(error))
      case Continue(next) => LoadLines(next, lines[1..], number + 1)
  }

  const START: Loader := Loader([], EmptyRule(""), false)

  function Load(text: string): Loaded {
    LoadLines(START, GetLines(text), 1)
  }

  // ---------- last write wins ----------

  /** The value of one field, as the printer writes it. */
  function Get(r: Rule, f: Field): Option<string> {
    match f
    case Protocol => Some(r.when.protocol)
    case Direction => Some(r.when.direction)
    case HostContains => Some(r.when.hostContains)
    case Verb => Some(r.when.verb)
    case PathContains => Some(r.when.pathContains)
    case Process => Some(r.when.processName)
    case RemotePort => Some(Decimal(r.when.remotePort))
    case TextFind => Some(r.action.textFind)
    case TextReplace => Some(r.action.textReplace)
    case HexFind => Some(r.action.hexFind)
    case HexReplace => Some(r.action.hexReplace)
    case BodyFind => Some(r.action.bodyFind)
    case BodyReplace => Some(r.action.bodyReplace)
    case HeaderSet(name) => if name in r.action.headerSet then Some(r.action.headerSet[name]) else None
  }

  predicate IsCondition(f: Field) {
    f.Protocol? || f.Direction? || f.HostContains? || f.Verb? || f.PathContains? || f.Process?
  }

  /** What a field holds after a value was assigned to it; `None` when the assignment fails. */
  function Stored(f: Field, value: string): Option<string> {
    if IsCondition(f) then Some(ToLower(value))
    else if f == RemotePort then
      match ParseU16(value) { case None => None case Some(port) => Some(Decimal(port)) }
    else Some(value)
  }

  lemma AssignGet(r: Rule, f: Field, value: string, g: Field)
    ensures Assign(r, f, value).Some? <==> Stored(f, value).Some?
    ensures Assign(r, f, value).Some? ==>
              var s := Assign(r, f, value).value;
              s.name == r.name && Get(s, g) == if g == f then Stored(f, value) else Get(r, g)
  {
    hide ParseU16, Decimal, ToLower;
  }

  datatype Assignment = Assignment(field: Field, value: string)

  function AssignAll(r: Rule, assignments: seq<Assignment>): Option<Rule> {
    if assignments == [] then Some(r)
    else
      match AssignAll(r, assignments[..|assignments| - 1])
      case None => None
      case Some(s) => Assign(s, assignments[|assignments| - 1].field, assignments[|assignments| - 1].value)
  }

  /** The last value assigned to `f`, if any. */
  function LastWrite(assignments: seq<Assignment>, f: Field): Option<string> {
    if assignments == [] then None
    else
      var last := assignments[|assignments| - 1];
      if last.field == f then Stored(f, last.value) else LastWrite(assignments[..|assignments| - 1], f)
  }

  lemma {:induction false} LastAssigned(r: Rule, assignments: seq<Assignment>, f: Field)
    ensures AssignAll(r, assignments).Some? <==>
              forall i | 0 <= i < |assignments| :: Stored(assignments[i].field, assignments[i].value).Some?
    ensures AssignAll(r, assignments).Some? ==>
              var s := AssignAll(r, assignments).value;
              && s.name == r.name
              && Get(s, f) == if exists i | 0 <= i < |assignments| :: assignments[i].field == f
                              then LastWrite(assignments, f) else Get(r, f)
  {
    hide Assign, Stored, Get;
    if assignments != [] {
      var front, last := assignments[..|assignments| - 1], assignments[|assignments| - 1];
      LastAssigned(r, front, f);
      if AssignAll(r, front).Some? {
        AssignGet(AssignAll(r, front).value, last.field, last.value, f);
      }
      assert forall i | 0 <= i < |front| :: assignments[i] == front[i];
    }
  }

  lemma SameConditions(r: Rule, s: Rule)
    requires forall f :: Get(r, f) == Get(s, f)
    ensures r.when == s.when
  {
    hide Decimal, DecimalValue;
    assert Get(r, Protocol) == Get(s, Protocol) && Get(r, Direction) == Get(s, Direction);
    assert Get(r, HostContains) == Get(s, HostContains) && Get(r, Verb) == Get(s, Verb);
    assert Get(r, PathContains) == Get(s, PathContains) && Get(r, Process) == Get(s, Process);
    assert Get(r, RemotePort) == Get(s, RemotePort);
    DecimalValueOfDecimal(r.when.remotePort);
    DecimalValueOfDecimal(s.when.remotePort);
  }

  lemma SameActionTexts(r: Rule, s: Rule)
    requires forall f :: Get(r, f) == Get(s, f)
    ensures r.action == s.action.(headerSet := r.action.headerSet)
  {
    hide Decimal, DecimalValue;
    assert Get(r, TextFind) == Get(s, TextFind) && Get(r, TextReplace) == Get(s, TextReplace);
    assert Get(r, HexFind) == Get(s, HexFind) && Get(r, HexReplace) == Get(s, HexReplace);
    assert Get(r, BodyFind) == Get(s, BodyFind) && Get(r, BodyReplace) == Get(s, BodyReplace);
  }

  /** Two rules with the same name and the same value in every field are the same rule. */
  lemma SameFieldsSameRule(r: Rule, s: Rule)
    requires r.name == s.name && forall f :: Get(r, f) == Get(s, f)
    ensures r == s
  {
    SameConditions(r, s);
    SameActionTexts(r, s);
    var a, b := r.action.headerSet, s.action.headerSet;
    forall name ensures name in a <==> name in b {
      assert Get(r, HeaderSet(name)) == Get(s, HeaderSet(name));
    }
    forall name | name in a ensures a[name] == b[name] {
      assert Get(r, HeaderSet(name)) == Get(s, HeaderSet(name));
    }
    assert a == b;
  }

  // ---------- reading line after line ----------

  /** Loading reads the first line of the text, then the rest. */
  lemma LoadNext(l: Loader, text: string, number: nat)
    requires text != ""
    ensures var newline := Find(text, "\n", 0);
            var line := if newline.Some? then text[..newline.value] else text;
            var rest := if newline.Some? then text[newline.value + 1..] else "";
            LoadLines(l, GetLines(text), number) ==
              match LoadLine(l, line, number)
              case Stop(error) => Loaded(l.rules, Some(error))
              case Continue(next) => LoadLines(next, GetLines(rest), number + 1)
  {
    hide LoadLine;
    var newline := Find(text, "\n", 0);
    var rest := if newline.Some? then text[newline.value + 1..] else "";
    var line := if newline.Some? then text[..newline.value] else text;
    assert GetLines(text) == [line] + GetLines(rest);
    assert GetLines(text)[1..] == GetLines(rest);
  }

  lemma LoadEnd(l: Loader, number: nat)
    ensures LoadLines(l, GetLines(""), number) == Loaded(l.rules, if l.inRule then Some(Unterminated) else None)
  {
  }

  // ---------- the block grammar ----------

  /** The rest of a rule block after its declaration: key lines up to the closing brace. */
  datatype Block = Block(rule: Rule, rest: seq<string>, number: nat) | BadBlock(error: LoadError)

  function ParseBlock(current: Rule, lines: seq<string>, number: nat): (b: Block)
    ensures b.Block? ==> |b.rest| < |lines|
    decreases |lines|
  {
    if lines == [] then BadBlock(Unterminated)
    else
      var trimmed := Trim(StripComment(lines[0]));
      if trimmed == "" then ParseBlock(current, lines[1..], number + 1)
      else if trimmed == "}" then Block(current, lines[1..], number + 1)
      else
        match SetField(Loader([], current, true), trimmed, number)
        case Stop(error) => BadBlock(error)
        case Continue(next) => ParseBlock(next.current, lines[1..], number + 1)
  }

  /** What a key line asks for; `None` when it has no `=`, an unknown key or an empty header name. */
  function ReadAssignment(trimmed: string): Option<Assignment> {
    match Find(trimmed, "=", 0)
    case None => None
    case Some(i) =>
      match FieldFrom(Trim(trimmed[..i]), 0)
      case None => None
      case Some(f) => if f == HeaderSet("") then None else Some(Assignment(f, Unquote(Trim(trimmed[i + 1..]))))
  }

  /** The assignments of a block, in order, up to its closing brace. */
  function AssignmentsOf(lines: seq<string>): seq<Assignment> {
    if lines == [] then []
    else
      var trimmed := Trim(StripComment(lines[0]));
      if trimmed == "" then AssignmentsOf(lines[1..])
      else if trimmed == "}" then []
      else
        match ReadAssignment(trimmed)
        case None => []
        case Some(a) => [a] + AssignmentsOf(lines[1..])
  }

  /** There is a closing brace, and before it only blank lines and key lines. */
  predicate IsBlock(lines: seq<string>) {
    lines != [] &&
    (var trimmed := Trim(StripComment(lines[0]));
     trimmed == "}" || ((trimmed == "" || ReadAssignment(trimmed).Some?) && IsBlock(lines[1..])))
  }

  lemma SetFieldAssigns(r: Rule, trimmed: string, number: nat)
    ensures var read := ReadAssignment(trimmed);
            match SetField(Loader([], r, true), trimmed, number)
            case Stop(_) => read.None? || Assign(r, read.value.field, read.value.value).None?
            case Continue(next) =>
              read.Some? && Assign(r, read.value.field, read.value.value) == Some(next.current)
  {
    hide Trim, Find, Unquote, FieldFrom, Assign;
  }

  lemma {:induction false} AssignFirst(r: Rule, a: Assignment, rest: seq<Assignment>)
    ensures AssignAll(r, [a] + rest) ==
            match Assign(r, a.field, a.value) case None => None case Some(s) => AssignAll(s, rest)
    decreases |rest|
  {
    hide Assign;
    if rest == [] {
      assert [a] + rest == [a] && [a][..0] == [];
      assert AssignAll(r, []) == Some(r);
    } else {
      assert ([a] + rest)[..|rest|] == [a] + rest[..|rest| - 1];
      AssignFirst(r, a, rest[..|rest| - 1]);
    }
  }

  /** A block parses exactly when its lines have that form and every value can be stored, and then to
      the rule that its assignments make. */
  lemma {:induction false} BlockIsAssignments(current: Rule, lines: seq<string>, number: nat)
    ensures ParseBlock(current, lines, number).Block? <==>
              IsBlock(lines) && AssignAll(current, AssignmentsOf(lines)).Some?
    ensures ParseBlock(current, lines, number).Block? ==>
              AssignAll(current, AssignmentsOf(lines)) == Some(ParseBlock(current, lines, number).rule)
    decreases |lines|
  {
    hide Trim, StripComment, SetField, ReadAssignment, Assign, AssignAll;
    AssignNothing(current);
    if lines != [] {
      var trimmed := Trim(StripComment(lines[0]));
      SetFieldAssigns(current, trimmed, number);
      if trimmed == "" {
        BlockIsAssignments(current, lines[1..], number + 1);
      } else if trimmed != "}" && ReadAssignment(trimmed).Some? {
        AssignFirst(current, ReadAssignment(trimmed).value, AssignmentsOf(lines[1..]));
        match SetField(Loader([], current, true), trimmed, number)
        case Stop(_) =>
        case Continue(next) => BlockIsAssignments(next.current, lines[1..], number + 1);
      }
    }
  }

  lemma AssignNothing(r: Rule)
    ensures AssignAll(r, []) == Some(r)
  {
  }

  /** Inside a block every field ends with its last assignment, and untouched fields stay. */
  lemma LastWriteWins(current: Rule, lines: seq<string>, number: nat, f: Field)
    ensures ParseBlock(current, lines, number).Block? <==>
              IsBlock(lines) && forall a | a in AssignmentsOf(lines) :: Stored(a.field, a.value).Some?
    ensures ParseBlock(current, lines, number).Block? ==>
              var rule := ParseBlock(current, lines, number).rule;
              && rule.name == current.name
              && Get(rule, f) == if exists a | a in AssignmentsOf(lines) :: a.field == f
                                 then LastWrite(AssignmentsOf(lines), f) else Get(current, f)
  {
    hide ParseBlock, IsBlock, AssignAll, Stored, Get, LastWrite;
    var assignments := AssignmentsOf(lines);
    BlockIsAssignments(current, lines, number);
    LastAssigned(current, assignments, f);
    assert forall i | 0 <= i < |assignments| :: assignments[i] in assignments;
  }

  /** A rule file: blank lines and rule blocks. */
  function ParseRules(lines: seq<string>, number: nat): Loaded
    decreases |lines|
  {
    if lines == [] then Loaded([], None)
    else
      var trimmed := Trim(StripComment(lines[0]));
      if trimmed == "" then ParseRules(lines[1..], number + 1)
      else
        match OpenRule(START, trimmed, number)
        case Stop(error) => Loaded([], Some(error))
        case Continue(next) =>
          match ParseBlock(next.current, lines[1..], number + 1)
          case BadBlock(error) => Loaded([], Some(error))
          case Block(rule, rest, after) =>
            var more := ParseRules(rest, after);
            Loaded([rule] + more.rules, more.error)
  }

  lemma SetFieldIgnoresRules(l: Loader, trimmed: string, number: nat)
    requires l.inRule
    ensures SetField(l, trimmed, number) ==
            match SetField(Loader([], l.current, true), trimmed, number)
            case Stop(error) => Stop(error)
            case Continue(next) => Continue(l.(current := next.current))
  {
    hide Trim, Find, Unquote, FieldFrom, Assign;
  }

  lemma OpenRuleIgnoresRules(l: Loader, trimmed: string, number: nat)
    requires !l.inRule
    ensures OpenRule(l, trimmed, number) ==
            match OpenRule(START, trimmed, number)
            case Stop(error) => Stop(error)
            case Continue(next) => Continue(Loader(l.rules, next.current, true))
  {
    hide Trim, Unquote;
  }

  /** The in-rule state of the loop is the block parser. */
  lemma {:induction false} LoopIsBlockParser(l: Loader, lines: seq<string>, number: nat)
    requires l.inRule
    ensures LoadLines(l, lines, number) ==
            match ParseBlock(l.current, lines, number)
            case BadBlock(error) => Loaded(l.rules, Some(error))
            case Block(rule, rest, after) => LoadLines(Loader(l.rules + [rule], EmptyRule(""), false), rest, after)
    decreases |lines|
  {
    hide Trim, StripComment, SetField, OpenRule;
    if lines != [] {
      var trimmed := Trim(StripComment(lines[0]));
      SetFieldIgnoresRules(l, trimmed, number);
      if trimmed == "" {
        LoopIsBlockParser(l, lines[1..], number + 1);
      } else if trimmed != "}" {
        match SetField(Loader([], l.current, true), trimmed, number)
        case Stop(error) =>
        case Continue(next) => LoopIsBlockParser(l.(current := next.current), lines[1..], number + 1);
      }
    }
  }

  /** The loop with its flag and current rule parses exactly the recursive block grammar. */
  lemma {:induction false} LoopIsGrammar(l: Loader, lines: seq<string>, number: nat)
    requires !l.inRule
    ensures LoadLines(l, lines, number) ==
            Loaded(l.rules + ParseRules(lines, number).rules, ParseRules(lines, number).error)
    decreases |lines|
  {
    hide Trim, StripComment, OpenRule, ParseBlock;
    if lines == [] {
      assert l.rules + [] == l.rules;
    } else {
      var trimmed := Trim(StripComment(lines[0]));
      OpenRuleIgnoresRules(l, trimmed, number);
      if trimmed == "" {
        LoopIsGrammar(l, lines[1..], number + 1);
      } else {
        match OpenRule(START, trimmed, number)
        case Stop(error) => assert l.rules + [] == l.rules;
        case Continue(next) =>
          var inside := Loader(l.rules, next.current, true);
          LoopIsBlockParser(inside, lines[1..], number + 1);
          match ParseBlock(next.current, lines[1..], number + 1)
          case BadBlock(error) => assert l.rules + [] == l.rules;
          case Block(rule, rest, after) =>
            LoopIsGrammar(Loader(l.rules + [rule], EmptyRule(""), false), rest, after);
            var more := ParseRules(rest, after).rules;
            assert l.rules + [rule] + more == l.rules + ([rule] + more);
      }
    }
  }
}
