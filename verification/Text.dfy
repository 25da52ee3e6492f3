/** Byte strings as the C and C++ standard libraries handle them. One `char` stands for one byte;
    classification and case folding follow the C locale. */
module Text {

  datatype Option<+T> = None | Some(value: T)

  function Min(a: int, b: int): int {
    if a < b then a else b
  }

  const CRLF: string := "\r\n"
  const HEAD_END: string := "\r\n\r\n"

  // ---------- searching ----------

  predicate At(s: string, p: string, i: nat) {
    i + |p| <= |s| && s[i..i + |p|] == p
  }

  /** `std::string::find`: the leftmost occurrence of `p` at or after `from`. */
  function Find(s: string, p: string, from: nat): (r: Option<nat>)
    ensures r.Some? ==> from <= r.value && r.value + |p| <= |s|
  {
    var hits := set i: nat | from <= i <= |s| && At(s, p, i) :: i;
    if hits == {} then None
    else
      var i := Least(hits);
      assert i in hits;
      Some(i)
  }

  function Least(hits: set<nat>): (i: nat)
    requires hits != {}
    ensures i in hits && forall j | j in hits :: i <= j
  {
    LeastExists(hits);
    var i :| i in hits && forall j | j in hits :: i <= j;
    i
  }

  lemma LeastExists(hits: set<nat>)
    requires hits != {}
    ensures exists i | i in hits :: forall j | j in hits :: i <= j
  {
    var i :| i in hits;
    while exists j | j in hits :: j < i
      invariant i in hits
      decreases i
    {
      var j :| j in hits && j < i;
      i := j;
    }
  }

  /** No occurrence of `p` in `s` starts in `from..to`. */
  ghost predicate AbsentIn(s: string, p: string, from: nat, to: nat) {
    forall j: nat | from <= j < to :: !At(s, p, j)
  }

  /** `Find` is the leftmost occurrence, and fails exactly when there is none. */
  lemma FindLeftmost(s: string, p: string, from: nat)
    ensures Find(s, p, from).Some? ==>
              At(s, p, Find(s, p, from).value) && AbsentIn(s, p, from, Find(s, p, from).value)
    ensures Find(s, p, from).None? ==> AbsentIn(s, p, from, |s| + 1)
  {
    var hits := set i: nat | from <= i <= |s| && At(s, p, i) :: i;
    if hits == {} {
      forall j: nat | from <= j < |s| + 1 ensures !At(s, p, j) { assert j !in hits; }
    } else {
      var i := Least(hits);
      assert i in hits;
      forall j: nat | from <= j < i ensures !At(s, p, j) { assert j !in hits; }
    }
  }

  lemma FindIs(s: string, p: string, from: nat, i: nat)
    requires from <= i && At(s, p, i) && AbsentIn(s, p, from, i)
    ensures Find(s, p, from) == Some(i)
  {
    FindLeftmost(s, p, from);
  }

  lemma FindIsNone(s: string, p: string, from: nat)
    requires AbsentIn(s, p, from, |s| + 1)
    ensures Find(s, p, from) == None
  {
    FindLeftmost(s, p, from);
  }

  predicate Contains(s: string, p: string) {
    Find(s, p, 0).Some?
  }

  lemma AtChar(s: string, c: char, i: nat)
    ensures At(s, [c], i) <==> i < |s| && s[i] == c
  {
    if i < |s| {
      assert s[i..i + 1] == [s[i]];
    }
  }

  lemma AtPrefix(s: string, t: string, p: string, to: nat)
    requires to + |p| <= |s| + 1
    ensures AbsentIn(s + t, p, 0, to) <==> AbsentIn(s, p, 0, to)
  {
    forall j: nat | j < to ensures At(s + t, p, j) <==> At(s, p, j) {
      AtAppend(s, t, p, j);
    }
  }

  lemma AtSlice(s: string, p: string, i: nat)
    requires At(s, p, i)
    ensures i + |p| <= |s| && s[i..i + |p|] == p
  {
  }

  lemma AtHere(s: string, p: string, i: nat)
    requires i + |p| <= |s| && s[i..i + |p|] == p
    ensures At(s, p, i)
  {
  }

  lemma AtByte(s: string, p: string, i: nat, k: nat)
    requires At(s, p, i) && k < |p|
    ensures s[i + k] == p[k]
  {
    assert s[i..i + |p|][k] == s[i + k];
  }

  lemma AtAppend(s: string, t: string, p: string, i: nat)
    requires i + |p| <= |s|
    ensures At(s + t, p, i) <==> At(s, p, i)
  {
    assert (s + t)[i..i + |p|] == s[i..i + |p|];
  }

  lemma AtShift(a: string, b: string, p: string, i: nat)
    ensures At(a + b, p, |a| + i) <==> At(b, p, i)
  {
    if i + |p| <= |b| {
      assert (a + b)[|a| + i..|a| + i + |p|] == b[i..i + |p|];
    }
  }

  lemma AbsentFirstChar(s: string, p: string)
    requires p != "" && p[0] !in s
    ensures Find(s, p, 0) == None
  {
    hide Find, At;
    forall j: nat | j <= |s| ensures !At(s, p, j) {
      if At(s, p, j) { AtByte(s, p, j, 0); AtSlice(s, p, j); }
    }
    FindIsNone(s, p, 0);
  }

  /** An occurrence that has been found stays the leftmost one when bytes are appended. */
  lemma FindStable(s: string, t: string, p: string, from: nat)
    requires Find(s, p, from).Some?
    ensures Find(s + t, p, from) == Find(s, p, from)
  {
    var i := Find(s, p, from).value;
    FindLeftmost(s, p, from);
    AtAppend(s, t, p, i);
    forall j: nat | from <= j < i ensures !At(s + t, p, j) {
      AtAppend(s, t, p, j);
    }
    FindIs(s + t, p, from, i);
  }

  function Shifted(r: Option<nat>, distance: nat): Option<nat> {
    match r case None => None case Some(i) => Some(distance + i)
  }

  /** If nothing matches before the end of `a`, searching `a + b` is searching `b`. */
  lemma FindShift(a: string, b: string, p: string)
    requires AbsentIn(a + b, p, 0, |a|)
    ensures Find(a + b, p, 0) == Shifted(Find(b, p, 0), |a|)
  {
    FindPast(a, b, p, 0);
    FindSkip(a + b, p, 0, |a|);
  }

  lemma FindSkip(s: string, p: string, from: nat, to: nat)
    requires from <= to && AbsentIn(s, p, from, to)
    ensures Find(s, p, from) == Find(s, p, to)
  {
    FindLeftmost(s, p, from);
    FindLeftmost(s, p, to);
  }

  /** Searching past `a` in `a + b` is searching `b`. */
  lemma FindPast(a: string, b: string, p: string, from: nat)
    ensures Find(a + b, p, |a| + from) == Shifted(Find(b, p, from), |a|)
  {
    hide Find, At;
    forall j: nat | from <= j ensures At(a + b, p, |a| + j) <==> At(b, p, j) {
      AtShift(a, b, p, j);
    }
    FindLeftmost(b, p, from);
    match Find(b, p, from)
    case Some(i) =>
      forall j: nat | |a| + from <= j < |a| + i ensures !At(a + b, p, j) { AtShift(a, b, p, j - |a|); }
      FindIs(a + b, p, |a| + from, |a| + i);
    case None =>
      forall j: nat | |a| + from <= j < |a + b| + 1 ensures !At(a + b, p, j) { AtShift(a, b, p, j - |a|); }
      FindIsNone(a + b, p, |a| + from);
  }

  lemma FindFrom(s: string, p: string, from: nat)
    requires from <= |s|
    ensures Find(s, p, from) == Shifted(Find(s[from..], p, 0), from)
  {
    assert s == s[..from] + s[from..];
    FindPast(s[..from], s[from..], p, 0);
  }

  // ---------- characters ----------

  /** `isspace` in the C locale. */
  predicate IsSpace(c: char) {
    c == ' ' || '\t' <= c <= '\r'
  }

  /** The six blanks: tab, line feed, vertical tab, form feed, carriage return and space. */
  lemma SixBlanks(c: char)
    ensures IsSpace(c) <==> c as int in [9, 10, 11, 12, 13, 32]
  {
  }

  /** `tolower` in the C locale. */
  function LowerChar(c: char): (r: char)
    ensures r == c || ('A' <= c <= 'Z' && 'a' <= r <= 'z')
  {
    if 'A' <= c <= 'Z' then (c as int + 32) as char else c
  }

  function ToLower(s: string): (r: string)
    ensures |r| == |s|
    ensures forall i | 0 <= i < |s| :: r[i] == LowerChar(s[i])
  {
    seq(|s|, i requires 0 <= i < |s| => LowerChar(s[i]))
  }

  /** The twenty-six capitals become small letters, every other character stays. */
  lemma Alphabet(c: char)
    ensures var capitals, small := "ABCDEFGHIJKLMNOPQRSTUVWXYZ", "abcdefghijklmnopqrstuvwxyz";
            && (forall i | 0 <= i < 26 :: LowerChar(capitals[i]) == small[i])
            && (c !in capitals ==> LowerChar(c) == c)
  {
    var capitals := "ABCDEFGHIJKLMNOPQRSTUVWXYZ";
    assert 'A' <= c <= 'Z' ==> capitals[c as int - 65] == c;
  }

  lemma ToLowerConcat(a: string, b: string)
    ensures ToLower(a + b) == ToLower(a) + ToLower(b)
  {
  }

  lemma ToLowerIdempotent(s: string)
    ensures ToLower(ToLower(s)) == ToLower(s)
  {
  }

  method Lowered(text: string) returns (output: string)
    ensures output == ToLower(text)
  {
    output := "";
    for i := 0 to |text|
      invariant output == ToLower(text[..i])
    {
      output := output + [LowerChar(text[i])];
    }
    assert text[..|text|] == text;
  }

  predicate StartsWithIgnoreCase(value: string, prefix: string) {
    |prefix| <= |value| && ToLower(value[..|prefix|]) == ToLower(prefix)
  }

  method HasPrefixIgnoreCase(value: string, prefix: string) returns (r: bool)
    ensures r == StartsWithIgnoreCase(value, prefix)
  {
    if |value| < |prefix| {
      return false;
    }
    for index := 0 to |prefix|
      invariant forall i | 0 <= i < index :: LowerChar(value[i]) == LowerChar(prefix[i])
    {
      if LowerChar(value[index]) != LowerChar(prefix[index]) {
        assert ToLower(value[..|prefix|])[index] != ToLower(prefix)[index];
        return false;
      }
    }
    return true;
  }

  // ---------- trimming ----------

  function SkipSpace(s: string): (r: string)
    ensures r != "" ==> !IsSpace(r[0])
    ensures |r| <= |s| && r == s[|s| - |r|..]
  {
    if s != "" && IsSpace(s[0]) then SkipSpace(s[1..]) else s
  }

  lemma SkipNothing(s: string)
    requires s != "" && !IsSpace(s[0])
    ensures SkipSpace(s) == s
  {
  }

  lemma SkipSpaceTwice(s: string)
    ensures SkipSpace(SkipSpace(s)) == SkipSpace(s)
  {
  }

  lemma SkipOneSpace(s: string)
    ensures SkipSpace(" " + s) == SkipSpace(s)
  {
    assert (" " + s)[1..] == s;
  }

  function DropTrailingSpace(s: string): (r: string)
    ensures r != "" ==> !IsSpace(r[|r| - 1])
    ensures |r| <= |s| && r == s[..|r|]
  {
    if s != "" && IsSpace(s[|s| - 1]) then DropTrailingSpace(s[..|s| - 1]) else s
  }

  function Trim(s: string): string {
    DropTrailingSpace(SkipSpace(s))
  }

  method StripLeadingSpace(text: string) returns (value: string)
    ensures value == SkipSpace(text)
  {
    value := text;
    while value != "" && IsSpace(value[0])
      invariant SkipSpace(value) == SkipSpace(text)
      decreases |value|
    {
      value := value[1..];
    }
  }

  method StripTrailingSpace(text: string) returns (value: string)
    ensures value == DropTrailingSpace(text)
  {
    value := text;
    while value != "" && IsSpace(value[|value| - 1])
      invariant DropTrailingSpace(value) == DropTrailingSpace(text)
      decreases |value|
    {
      value := value[..|value| - 1];
    }
  }

  method Trimmed(text: string) returns (r: string)
    ensures r == Trim(text)
  {
    r := StripLeadingSpace(text);
    r := StripTrailingSpace(r);
  }

  predicate BareEnds(s: string) {
    s != "" && !IsSpace(s[0]) && !IsSpace(s[|s| - 1])
  }

  /** A text that begins and ends with something else is not trimmed; padding around it is. */
  lemma TrimPadded(s: string)
    requires BareEnds(s)
    ensures Trim(s) == s && Trim(" " + s) == s && Trim("  " + s) == s && Trim(s + " ") == s
  {
    hide Trim;
    TrimSelf(s);
    TrimBlanks(" ", s, "");
    TrimBlanks("  ", s, "");
    TrimBlanks("", s, " ");
    assert " " + s + "" == " " + s && "  " + s + "" == "  " + s && "" + s + " " == s + " ";
  }

  lemma TrimSelf(s: string)
    requires BareEnds(s)
    ensures Trim(s) == s
  {
    hide SkipSpace, DropTrailingSpace;
    TrimBare(s);
  }

  predicate IsBlank(s: string) {
    forall i | 0 <= i < |s| :: IsSpace(s[i])
  }

  lemma {:induction false} SkipBlank(pad: string, s: string)
    requires IsBlank(pad)
    ensures SkipSpace(pad + s) == SkipSpace(s)
  {
    if pad == "" {
      assert pad + s == s;
    } else {
      assert (pad + s)[1..] == pad[1..] + s;
      SkipBlank(pad[1..], s);
    }
  }

  lemma {:induction false} DropBlank(s: string, pad: string)
    requires IsBlank(pad)
    ensures DropTrailingSpace(s + pad) == DropTrailingSpace(s)
    decreases |pad|
  {
    if pad == "" {
      assert s + pad == s;
    } else {
      assert (s + pad)[..|s + pad| - 1] == s + pad[..|pad| - 1];
      DropBlank(s, pad[..|pad| - 1]);
    }
  }

  lemma {:induction false} SkipBeforeBlank(s: string, pad: string)
    requires IsBlank(pad)
    ensures SkipSpace(s + pad) == if SkipSpace(s) == "" then "" else SkipSpace(s) + pad
  {
    if s == "" {
      SkipBlank(pad, "");
      assert pad + "" == s + pad;
    } else if IsSpace(s[0]) {
      assert (s + pad)[1..] == s[1..] + pad;
      SkipBeforeBlank(s[1..], pad);
    }
  }

  /** Blanks in front and behind are trimmed, however many. */
  lemma TrimBlanks(before: string, s: string, after: string)
    requires IsBlank(before) && IsBlank(after)
    ensures Trim(before + s + after) == Trim(s)
  {
    hide SkipSpace, DropTrailingSpace;
    SkipBlank(before, s + after);
    assert before + s + after == before + (s + after);
    SkipBeforeBlank(s, after);
    DropBlank(SkipSpace(s), after);
  }

  lemma TrimBare(s: string)
    requires BareEnds(s)
    ensures SkipSpace(s) == s && DropTrailingSpace(s) == s
  {
  }

  /** Trimming keeps a piece of the text, bare at both ends when anything is left. */
  lemma TrimShape(s: string)
    ensures Trim(s) != "" ==> BareEnds(Trim(s))
    ensures exists i, j | 0 <= i <= j <= |s| :: Trim(s) == s[i..j]
  {
    var t := SkipSpace(s);
    var r := Trim(s);
    hide SkipSpace, DropTrailingSpace;
    var i := |s| - |t|;
    assert t == s[i..];
    assert r == t[..|r|] == s[i..i + |r|];
    assert r != "" ==> r[0] == t[0];
  }

  // ---------- lines ----------

  predicate NoLf(s: string) {
    '\n' !in s
  }

  lemma SliceNoLf(s: string, i: nat, j: nat)
    requires NoLf(s) && i <= j <= |s|
    ensures NoLf(s[i..j])
  {
    assert forall k | i <= k < j :: s[i..j][k - i] == s[k];
  }

  /** Successive `std::getline` results: no extra line after a trailing newline. */
  function GetLines(text: string): seq<string> {
    if text == "" then []
    else match Find(text, "\n", 0)
      case None => [text]
      case Some(i) => [text[..i]] + GetLines(text[i + 1..])
  }

  lemma NewlineAbsent(text: string, to: nat)
    requires to <= |text|
    ensures AbsentIn(text, "\n", 0, to) <==> NoLf(text[..to])
  {
    forall j: nat | j < to ensures At(text, "\n", j) <==> text[..to][j] == '\n' {
      AtChar(text, '\n', j);
    }
  }

  lemma GetLinesHaveNoLf(text: string)
    ensures forall line | line in GetLines(text) :: NoLf(line)
  {
    if text != "" {
      FindLeftmost(text, "\n", 0);
      match Find(text, "\n", 0)
      case None =>
        NewlineAbsent(text, |text|);
        assert text[..|text|] == text;
      case Some(i) =>
        NewlineAbsent(text, i);
        GetLinesHaveNoLf(text[i + 1..]);
    }
  }

  /** Reading one newline-terminated line off the front of a text. */
  lemma GetLinesCons(line: string, rest: string)
    requires NoLf(line)
    ensures GetLines(line + "\n" + rest) == [line] + GetLines(rest)
  {
    var text := line + "\n" + rest;
    AtChar(text, '\n', |line|);
    assert text[..|line|] == line;
    NewlineAbsent(text, |line|);
    FindIs(text, "\n", 0, |line|);
    assert text[|line| + 1..] == rest;
  }

  lemma GetLinesLast(line: string)
    requires NoLf(line) && line != ""
    ensures GetLines(line) == [line]
  {
    NewlineAbsent(line, |line|);
    assert line[..|line|] == line;
    FindLeftmost(line, "\n", 0);
    if Find(line, "\n", 0).Some? {
      AtChar(line, '\n', Find(line, "\n", 0).value);
    }
  }

  function StripCr(line: string): string {
    if line != "" && line[|line| - 1] == '\r' then line[..|line| - 1] else line
  }

  function LinesOf(text: string): seq<string> {
    var raw := GetLines(text);
    seq(|raw|, i requires 0 <= i < |raw| => StripCr(raw[i]))
  }

  // ---------- concatenation ----------

  function Flatten(parts: seq<string>): string {
    if parts == [] then "" else parts[0] + Flatten(parts[1..])
  }

  lemma FlattenAppend(a: seq<string>, b: seq<string>)
    ensures Flatten(a + b) == Flatten(a) + Flatten(b)
  {
    if a == [] {
      assert a + b == b;
    } else {
      assert (a + b)[0] == a[0] && (a + b)[1..] == a[1..] + b;
    }
  }

  // ---------- numbers ----------

  /** The largest `unsigned long`, which has 32 bits on Windows. */
  const ULONG_MAX: nat := 0xFFFF_FFFF

  predicate IsDigit(c: char) {
    '0' <= c <= '9'
  }

  predicate AllDigits(s: string) {
    forall i | 0 <= i < |s| :: IsDigit(s[i])
  }

  function LeadingDigits(s: string): (r: string)
    ensures AllDigits(r)
  {
    if s != "" && IsDigit(s[0]) then [s[0]] + LeadingDigits(s[1..]) else ""
  }

  function DecimalValue(s: string): nat
    requires AllDigits(s)
  {
    if s == "" then 0
    else 10 * DecimalValue(s[..|s| - 1]) + (s[|s| - 1] as int - '0' as int)
  }

  /** `std::stoul` / `std::stoull` in base ten for an unsigned type whose largest value is `max`;
      `None` is a thrown exception. */
  function ParseUnsigned(s: string, max: nat): (r: Option<nat>)
    ensures r.Some? ==> r.value <= max
  {
    var t := SkipSpace(s);
    var signed := t != "" && (t[0] == '-' || t[0] == '+');
    var digits := LeadingDigits(if signed then t[1..] else t);
    if digits == "" then None
    else
      var v := DecimalValue(digits);
      if v > max then None
      else if signed && t[0] == '-' && v != 0 then Some(max + 1 - v)
      else Some(v)
  }

  /** `std::to_string` of an unsigned number. */
  function Decimal(n: nat): (r: string)
    ensures r != "" && AllDigits(r)
  {
    if n < 10 then [(n + '0' as int) as char]
    else Decimal(n / 10) + [(n % 10 + '0' as int) as char]
  }

  lemma {:induction false} DecimalValueOfDecimal(n: nat)
    ensures DecimalValue(Decimal(n)) == n
  {
    if n >= 10 {
      DecimalValueOfDecimal(n / 10);
      var r := Decimal(n);
      assert r[..|r| - 1] == Decimal(n / 10);
    }
  }

  lemma {:induction false} LeadingDigitsOf(digits: string, rest: string)
    requires AllDigits(digits)
    requires rest != "" ==> !IsDigit(rest[0])
    ensures LeadingDigits(digits + rest) == digits
  {
    if digits == "" {
      assert digits + rest == rest;
    } else {
      assert (digits + rest)[1..] == digits[1..] + rest;
      LeadingDigitsOf(digits[1..], rest);
    }
  }

  lemma ParseDigits(s: string, t: string, max: nat)
    requires t == SkipSpace(s)
    requires t != "" && AllDigits(t) && DecimalValue(t) <= max
    ensures ParseUnsigned(s, max) == Some(DecimalValue(t))
  {
    hide LeadingDigits, DecimalValue, SkipSpace;
    assert IsDigit(t[0]);
    LeadingDigitsOf(t, "");
    assert t + "" == t;
  }

  // ---------- numbers as they are spelled ----------

  /** Blanks, at most one sign, digits, and a rest that these could not have been read into. */
  predicate Spelling(pad: string, sign: string, digits: string, rest: string) {
    && IsBlank(pad) && AllDigits(digits) && (sign == "" || sign == "+" || sign == "-")
    && (rest != "" ==> !IsDigit(rest[0]))
    && (rest != "" && sign == "" && digits == "" ==> !IsSpace(rest[0]) && rest[0] != '+' && rest[0] != '-')
  }

  /** `stoul` and `stoull` on every text: they skip blanks, take one sign, read digits and ignore what
      follows. They fail without digits and when the number is too large; a minus wraps around. */
  lemma ParseSpelled(pad: string, sign: string, digits: string, rest: string, max: nat)
    requires Spelling(pad, sign, digits, rest)
    ensures ParseUnsigned(pad + (sign + (digits + rest)), max) ==
            if digits == "" || DecimalValue(digits) > max then None
            else if sign == "-" && DecimalValue(digits) > 0 then Some(max + 1 - DecimalValue(digits))
            else Some(DecimalValue(digits))
  {
    hide LeadingDigits, DecimalValue, SkipSpace, IsBlank, IsSpace, AllDigits, ParseUnsigned;
    var t := sign + (digits + rest);
    SpelledStart(pad, sign, digits, rest);
    SkipBlank(pad, t);
    LeadingDigitsOf(digits, rest);
    if sign == "" {
      assert t == digits + rest;
      ParseBare(pad + t, t, max);
    } else {
      ParseSigned(pad + t, sign, digits + rest, max);
    }
  }

  lemma ParseBare(s: string, t: string, max: nat)
    requires SkipSpace(s) == t && (t != "" ==> t[0] != '+' && t[0] != '-')
    ensures var digits := LeadingDigits(t);
            ParseUnsigned(s, max) ==
            if digits == "" || DecimalValue(digits) > max then None else Some(DecimalValue(digits))
  {
    hide LeadingDigits, DecimalValue, SkipSpace;
  }

  lemma ParseSigned(s: string, sign: string, more: string, max: nat)
    requires SkipSpace(s) == sign + more && (sign == "+" || sign == "-")
    ensures var digits := LeadingDigits(more);
            ParseUnsigned(s, max) ==
            if digits == "" || DecimalValue(digits) > max then None
            else if sign == "-" && DecimalValue(digits) > 0 then Some(max + 1 - DecimalValue(digits))
            else Some(DecimalValue(digits))
  {
    hide LeadingDigits, DecimalValue, SkipSpace;
    assert (sign + more)[1..] == more;
  }

  /** Behind the blanks stands the sign, else a digit, else the rest; nothing is skipped there. */
  lemma SpelledStart(pad: string, sign: string, digits: string, rest: string)
    requires Spelling(pad, sign, digits, rest)
    ensures var t := sign + (digits + rest);
            && SkipSpace(t) == t
            && (sign == "" && t != "" ==> t[0] != '+' && t[0] != '-')
  {
    hide SkipSpace;
    NothingToSkip(sign + (digits + rest));
  }

  lemma NothingToSkip(t: string)
    requires t != "" ==> !IsSpace(t[0])
    ensures SkipSpace(t) == t
  {
  }

  /** Every text has such a spelling, so `ParseSpelled` says what every text is read as. */
  lemma EveryTextIsSpelled(s: string) returns (pad: string, sign: string, digits: string, rest: string)
    ensures Spelling(pad, sign, digits, rest) && s == pad + (sign + (digits + rest))
  {
    var t: string;
    pad, t := BlanksInFront(s);
    sign := if t != "" && (t[0] == '+' || t[0] == '-') then t[..1] else "";
    digits, rest := DigitsInFront(t[|sign|..]);
  }

  lemma {:induction false} BlanksInFront(s: string) returns (pad: string, t: string)
    ensures IsBlank(pad) && s == pad + t && (t != "" ==> !IsSpace(t[0]))
    decreases |s|
  {
    pad, t := "", s;
    if s != "" && IsSpace(s[0]) {
      pad, t := BlanksInFront(s[1..]);
      pad := [s[0]] + pad;
    }
  }

  lemma {:induction false} DigitsInFront(s: string) returns (digits: string, rest: string)
    ensures AllDigits(digits) && s == digits + rest && (rest != "" ==> !IsDigit(rest[0]))
    decreases |s|
  {
    digits, rest := "", s;
    if s != "" && IsDigit(s[0]) {
      digits, rest := DigitsInFront(s[1..]);
      digits := [s[0]] + digits;
    }
  }

  /** Parsing undoes printing, with or without one space in front. */
  lemma ParseDecimal(n: nat, max: nat)
    requires n <= max
    ensures ParseUnsigned(Decimal(n), max) == Some(n)
    ensures ParseUnsigned(" " + Decimal(n), max) == Some(n)
  {
    hide Decimal, DecimalValue, ParseUnsigned;
    var d := Decimal(n);
    assert IsDigit(d[0]);
    assert SkipSpace(d) == d;
    SkipOneSpace(d);
    DecimalValueOfDecimal(n);
    ParseDigits(d, d, max);
    ParseDigits(" " + d, d, max);
  }

  lemma ParseDecimalTooLarge(n: nat, max: nat)
    requires n > max
    ensures ParseUnsigned(Decimal(n), max) == None
  {
    hide Decimal, DecimalValue, LeadingDigits;
    var d := Decimal(n);
    assert IsDigit(d[0]);
    assert SkipSpace(d) == d;
    DecimalValueOfDecimal(n);
    LeadingDigitsOf(d, "");
    assert d + "" == d;
  }
}
