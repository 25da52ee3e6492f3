/** Printing and reading HTTP heads (src/protocol/http_protocol_adapter.cpp). */
module HttpHead {
  import opened Text
  import opened RuleModel

  const LENGTH_NAME: string := "Content-Length"

  predicate IsLengthName(name: string) {
    StartsWithIgnoreCase(name, LENGTH_NAME)
  }

  predicate IsLengthLine(line: string) {
    StartsWithIgnoreCase(line, "Content-Length:")
  }

  function LengthLine(bodySize: nat): string {
    LENGTH_NAME + ": " + Decimal(bodySize)
  }

  // ---------- lines ----------

  /** Every line followed by CR LF. */
  function Terminated(lines: seq<string>): string {
    if lines == [] then "" else lines[0] + CRLF + Terminated(lines[1..])
  }

  /** CR LF between lines only. */
  function Joined(lines: seq<string>): string {
    if lines == [] then "" else if |lines| == 1 then lines[0] else lines[0] + CRLF + Joined(lines[1..])
  }

  ghost predicate LfFree(lines: seq<string>) {
    forall i | 0 <= i < |lines| :: NoLf(lines[i])
  }

  lemma {:induction false} TerminatedAppend(a: seq<string>, b: seq<string>)
    ensures Terminated(a + b) == Terminated(a) + Terminated(b)
  {
    if a == [] {
      assert a + b == b;
    } else {
      assert (a + b)[1..] == a[1..] + b;
      TerminatedAppend(a[1..], b);
    }
  }

  lemma {:induction false} TerminatedIsJoined(lines: seq<string>)
    requires lines != []
    ensures Terminated(lines) == Joined(lines) + CRLF
  {
    if |lines| > 1 {
      TerminatedIsJoined(lines[1..]);
    } else {
      assert Terminated(lines[1..]) == "";
    }
  }

  /** `split_lines`. */
  method SplitLines(text: string) returns (lines: seq<string>)
    ensures lines == LinesOf(text)
  {
    hide Find, LinesOf, StripCr;
    lines := [];
    var rest := text;
    LinesOfEmpty();
    while rest != ""
      invariant LinesOf(text) == lines + LinesOf(rest)
      decreases |rest|
    {
      var newline := Find(rest, "\n", 0);
      var line := if newline.Some? then rest[..newline.value] else rest;
      ghost var before := rest;
      rest := if newline.Some? then rest[newline.value + 1..] else "";
      lines := lines + [StripCr(line)];
      LinesOfStep(before);
    }
  }

  lemma LinesOfEmpty()
    ensures LinesOf("") == []
  {
  }

  lemma LinesOfStep(text: string)
    requires text != ""
    ensures var newline := Find(text, "\n", 0);
            var line := if newline.Some? then text[..newline.value] else text;
            var rest := if newline.Some? then text[newline.value + 1..] else "";
            LinesOf(text) == [StripCr(line)] + LinesOf(rest)
  {
    hide Find, StripCr;
    var newline := Find(text, "\n", 0);
    var line := if newline.Some? then text[..newline.value] else text;
    var rest := if newline.Some? then text[newline.value + 1..] else "";
    assert GetLines(text) == [line] + GetLines(rest);
  }

  lemma LinesOfHaveNoLf(text: string)
    ensures LfFree(LinesOf(text))
  {
    GetLinesHaveNoLf(text);
    var raw := GetLines(text);
    forall i | 0 <= i < |raw| ensures NoLf(StripCr(raw[i])) {
      assert raw[i] in raw;
    }
  }

  /** Reading CR LF terminated lines gives the lines back, even those that end in a bare CR. */
  lemma {:induction false} LinesOfTerminated(lines: seq<string>, rest: string)
    requires LfFree(lines)
    ensures LinesOf(Terminated(lines) + rest) == lines + LinesOf(rest)
  {
    hide LinesOf;
    if lines == [] {
      assert Terminated(lines) + rest == rest;
    } else {
      var tail := Terminated(lines[1..]) + rest;
      LinesOfTerminated(lines[1..], rest);
      assert Terminated(lines) + rest == lines[0] + CRLF + tail;
      LinesOfCons(lines[0], tail);
    }
  }

  lemma LinesOfCons(line: string, rest: string)
    requires NoLf(line)
    ensures LinesOf(line + CRLF + rest) == [line] + LinesOf(rest)
  {
    hide GetLines;
    assert line + CRLF + rest == (line + "\r") + "\n" + rest;
    GetLinesCons(line + "\r", rest);
    assert StripCr(line + "\r") == line;
  }

  /** A line without terminator loses one trailing CR, and nothing at all is no line. */
  function LastLine(line: string): seq<string> {
    if line == "" then [] else [StripCr(line)]
  }

  /** Joined lines as they are read back. */
  function AsRead(lines: seq<string>): seq<string>
    requires lines != []
  {
    lines[..|lines| - 1] + LastLine(lines[|lines| - 1])
  }

  lemma LinesOfJoined(lines: seq<string>)
    requires lines != [] && LfFree(lines)
    ensures LinesOf(Joined(lines)) == AsRead(lines)
  {
    hide LinesOf, LastLine, Joined, Terminated;
    var front, last := lines[..|lines| - 1], lines[|lines| - 1];
    JoinedAsTerminated(front, last);
    assert lines == front + [last];
    LinesOfTerminated(front, last);
    LinesOfLast(last);
  }

  lemma LinesOfLast(line: string)
    requires NoLf(line)
    ensures LinesOf(line) == LastLine(line)
  {
    if line != "" {
      hide GetLines;
      GetLinesLast(line);
    }
  }

  lemma {:induction false} JoinedAsTerminated(front: seq<string>, last: string)
    ensures Joined(front + [last]) == Terminated(front) + last
  {
    if front == [] {
      assert front + [last] == [last];
    } else {
      assert (front + [last])[1..] == front[1..] + [last];
      JoinedAsTerminated(front[1..], last);
    }
  }

  // ---------- header maps ----------

  datatype Header = Header(name: string, value: string)

  /** A header line is cut at its first colon; a line without one is skipped. */
  function ParseHeader(line: string): Option<Header> {
    match Find(line, ":", 0)
    case None => None
    case Some(i) => Some(Header(line[..i], SkipSpace(line[i + 1..])))
  }

  /** `parse_headers`: later lines overwrite earlier ones. */
  function HeadersOf(lines: seq<string>): HeaderMap {
    if lines == [] then map[]
    else AddHeader(HeadersOf(lines[..|lines| - 1]), lines[|lines| - 1])
  }

  function AddHeader(headers: HeaderMap, line: string): HeaderMap {
    match ParseHeader(line)
    case None => headers
    case Some(h) => headers[h.name := h.value]
  }

  lemma NoHeaders()
    ensures HeadersOf([]) == map[]
  {
  }

  lemma HeadersStep(lines: seq<string>, from: nat, i: nat)
    requires from <= i < |lines|
    ensures HeadersOf(lines[from..i + 1]) == AddHeader(HeadersOf(lines[from..i]), lines[i])
  {
    hide AddHeader;
    assert lines[from..i + 1][..i - from] == lines[from..i];
  }

  method ParseHeaders(lines: seq<string>, startIndex: nat) returns (headers: HeaderMap)
    requires startIndex <= |lines|
    ensures headers == HeadersOf(lines[startIndex..])
  {
    hide HeadersOf, AddHeader;
    headers := map[];
    NoHeaders();
    assert lines[startIndex..startIndex] == [];
    for i := startIndex to |lines|
      invariant headers == HeadersOf(lines[startIndex..i])
    {
      HeadersStep(lines, startIndex, i);
      headers := StoreHeader(headers, lines[i]);
    }
    assert lines[startIndex..|lines|] == lines[startIndex..];
  }

  method StoreHeader(headers: HeaderMap, line: string) returns (r: HeaderMap)
    ensures r == AddHeader(headers, line)
  {
    hide Find, SkipSpace;
    r := headers;
    var colon := Find(line, ":", 0);
    if colon.Some? {
      var value := StripLeadingSpace(line[colon.value + 1..]);
      r := headers[line[..colon.value] := value];
    }
  }

  /** Last write wins: the value of a name is that of its last line. */
  lemma {:induction false} HeadersLookup(lines: seq<string>, i: nat)
    requires i < |lines| && ParseHeader(lines[i]).Some?
    requires forall j | i < j < |lines| && ParseHeader(lines[j]).Some? ::
               ParseHeader(lines[j]).value.name != ParseHeader(lines[i]).value.name
    ensures var h := ParseHeader(lines[i]).value;
            h.name in HeadersOf(lines) && HeadersOf(lines)[h.name] == h.value
  {
    hide ParseHeader;
    if i < |lines| - 1 {
      HeadersLookup(lines[..|lines| - 1], i);
    }
  }

  /** When all lines of a name carry one value, that is the value read. */
  lemma {:induction false} HeadersUniform(lines: seq<string>, h: Header)
    requires exists i | 0 <= i < |lines| :: ParseHeader(lines[i]) == Some(h)
    requires forall i | 0 <= i < |lines| && ParseHeader(lines[i]).Some? ::
               ParseHeader(lines[i]).value.name == h.name ==> ParseHeader(lines[i]).value.value == h.value
    ensures h.name in HeadersOf(lines) && HeadersOf(lines)[h.name] == h.value
  {
    hide ParseHeader;
    var front, last := lines[..|lines| - 1], lines[|lines| - 1];
    if ParseHeader(last) != Some(h) {
      var i :| 0 <= i < |lines| && ParseHeader(lines[i]) == Some(h);
      assert ParseHeader(front[i]) == Some(h);
      HeadersUniform(front, h);
    }
  }

  /** Nothing is read that no line carries. */
  lemma {:induction false} HeadersComeFromLines(lines: seq<string>, name: string)
    requires name in HeadersOf(lines)
    ensures exists i | 0 <= i < |lines| :: ParseHeader(lines[i]) == Some(Header(name, HeadersOf(lines)[name]))
  {
    hide ParseHeader;
    var front, last := lines[..|lines| - 1], lines[|lines| - 1];
    var value := HeadersOf(lines)[name];
    if ParseHeader(last) != Some(Header(name, value)) {
      HeadersComeFromLines(front, name);
      var i :| 0 <= i < |front| && ParseHeader(front[i]) == Some(Header(name, value));
      assert ParseHeader(lines[i]) == Some(Header(name, value));
    }
  }

  // ---------- printing ----------

  predicate HasLength(headers: HeaderMap) {
    exists name | name in headers :: IsLengthName(name)
  }

  function HeaderLine(name: string, value: string, bodySize: nat): string {
    if IsLengthName(name) then LengthLine(bodySize) else name + ": " + value
  }

  function HeaderLines(order: seq<string>, headers: HeaderMap, bodySize: nat): seq<string>
    requires forall i | 0 <= i < |order| :: order[i] in headers
  {
    seq(|order|, i requires 0 <= i < |order| => HeaderLine(order[i], headers[order[i]], bodySize))
  }

  /** The lines below the start line. */
  function FieldLines(order: seq<string>, headers: HeaderMap, bodySize: nat): seq<string>
    requires forall i | 0 <= i < |order| :: order[i] in headers
  {
    HeaderLines(order, headers, bodySize) + (if HasLength(headers) then [] else [LengthLine(bodySize)])
  }

  /** `rebuild_head_from_model`; the loop visits the map in an arbitrary order. */
  method RebuildHeadFromModel(startLine: string, headers: HeaderMap, bodySize: nat)
    returns (rebuilt: string, ghost order: seq<string>)
    ensures IsOrder(order, headers) && rebuilt == Terminated([startLine] + FieldLines(order, headers, bodySize))
    ensures exists o | IsOrder(o, headers) :: rebuilt == Terminated([startLine] + FieldLines(o, headers, bodySize))
  {
    hide StartsWithIgnoreCase, Decimal, Terminated, FieldLines;
    rebuilt := startLine + CRLF;
    order := [];
    var hasContentLength := false;
    var left := headers.Keys;
    HeadStart(startLine, headers, bodySize);
    while left != {}
      invariant left <= headers.Keys
      invariant forall i, j | 0 <= i < j < |order| :: order[i] != order[j]
      invariant forall i | 0 <= i < |order| :: order[i] in headers && order[i] !in left
      invariant forall name | name in headers :: name in left || name in order
      invariant rebuilt == Terminated([startLine] + HeaderLines(order, headers, bodySize))
      invariant hasContentLength <==> exists i | 0 <= i < |order| :: IsLengthName(order[i])
      decreases left
    {
      hide HeaderLines;
      var name :| name in left;
      HeadStep(startLine, order, headers, bodySize, name);
      var isLength := HasPrefixIgnoreCase(name, LENGTH_NAME);
      if isLength {
        rebuilt := rebuilt + (LengthLine(bodySize) + CRLF);
        hasContentLength := true;
      } else {
        rebuilt := rebuilt + (name + ": " + headers[name] + CRLF);
      }
      ghost var before := order;
      order := order + [name];
      assert order[|before|] == name;
      assert forall i | 0 <= i < |before| :: order[i] == before[i];
      left := left - {name};
    }
    LengthInOrder(order, headers);
    HeadEnd(startLine, order, headers, bodySize);
    if !hasContentLength {
      rebuilt := rebuilt + (LengthLine(bodySize) + CRLF);
    }
  }

  lemma HeadStart(startLine: string, headers: HeaderMap, bodySize: nat)
    ensures startLine + CRLF == Terminated([startLine] + HeaderLines([], headers, bodySize))
  {
    assert [startLine] + HeaderLines([], headers, bodySize) == [] + [startLine];
    TerminatedSnoc([], startLine);
    assert Terminated([]) + (startLine + CRLF) == startLine + CRLF;
  }

  lemma HeadStep(startLine: string, order: seq<string>, headers: HeaderMap, bodySize: nat, name: string)
    requires name in headers && forall i | 0 <= i < |order| :: order[i] in headers
    ensures Terminated([startLine] + HeaderLines(order + [name], headers, bodySize))
         == Terminated([startLine] + HeaderLines(order, headers, bodySize))
            + (HeaderLine(name, headers[name], bodySize) + CRLF)
  {
    hide HeaderLine, Terminated;
    TerminatedSnoc([startLine] + HeaderLines(order, headers, bodySize), HeaderLine(name, headers[name], bodySize));
    assert [startLine] + HeaderLines(order + [name], headers, bodySize)
        == [startLine] + HeaderLines(order, headers, bodySize) + [HeaderLine(name, headers[name], bodySize)];
  }

  lemma HeadEnd(startLine: string, order: seq<string>, headers: HeaderMap, bodySize: nat)
    requires forall i | 0 <= i < |order| :: order[i] in headers
    ensures Terminated([startLine] + FieldLines(order, headers, bodySize))
         == Terminated([startLine] + HeaderLines(order, headers, bodySize))
            + (if HasLength(headers) then "" else LengthLine(bodySize) + CRLF)
  {
    hide Terminated, HeaderLines, LengthLine;
    var lines := [startLine] + HeaderLines(order, headers, bodySize);
    TerminatedSnoc(lines, LengthLine(bodySize));
    assert [startLine] + FieldLines(order, headers, bodySize)
        == lines + (if HasLength(headers) then [] else [LengthLine(bodySize)]);
    assert lines + [] == lines;
  }

  lemma TerminatedSnoc(lines: seq<string>, line: string)
    ensures Terminated(lines + [line]) == Terminated(lines) + (line + CRLF)
  {
    TerminatedAppend(lines, [line]);
    assert Terminated([line][1..]) == "";
    assert Terminated([line]) == line + CRLF + "";
  }

  lemma LengthInOrder(order: seq<string>, headers: HeaderMap)
    requires IsOrder(order, headers)
    ensures HasLength(headers) <==> exists i | 0 <= i < |order| :: IsLengthName(order[i])
  {
    if HasLength(headers) {
      var name :| name in headers && IsLengthName(name);
      var i :| 0 <= i < |order| && order[i] == name;
    }
  }

  // ---------- the second Content-Length pass ----------

  function FixedLine(line: string, bodySize: nat): string {
    if IsLengthLine(line) then LengthLine(bodySize) else line
  }

  predicate HasLengthLine(lines: seq<string>) {
    exists i | 0 <= i < |lines| :: IsLengthLine(lines[i])
  }

  /** Every Content-Length line gets the body size; one is added when there is none. */
  function WithLength(lines: seq<string>, bodySize: nat): seq<string> {
    seq(|lines|, i requires 0 <= i < |lines| => FixedLine(lines[i], bodySize))
    + (if HasLengthLine(lines) || lines == [] then [] else [LengthLine(bodySize)])
  }

  /** `rebuild_headers_with_content_length`. */
  method RebuildHeadersWithContentLength(head: string, bodySize: nat) returns (rebuilt: string)
    ensures rebuilt == Joined(WithLength(LinesOf(head), bodySize))
  {
    hide LinesOf, StartsWithIgnoreCase, Decimal;
    var input := SplitLines(head);
    var lines := [];
    var hasContentLength := false;
    for i := 0 to |input|
      invariant |lines| == i
      invariant forall j | 0 <= j < i :: lines[j] == FixedLine(input[j], bodySize)
      invariant hasContentLength <==> exists j | 0 <= j < i :: IsLengthLine(input[j])
    {
      var line := input[i];
      var isLength := HasPrefixIgnoreCase(line, "Content-Length:");
      if isLength {
        line := LengthLine(bodySize);
        hasContentLength := true;
      }
      lines := lines + [line];
    }
    if !hasContentLength && lines != [] {
      lines := lines + [LengthLine(bodySize)];
    }
    assert lines == WithLength(input, bodySize);
    rebuilt := JoinLines(lines);
  }

  method JoinLines(lines: seq<string>) returns (rebuilt: string)
    ensures rebuilt == Joined(lines)
  {
    rebuilt := "";
    assert lines[0..] == lines;
    for index := 0 to |lines|
      invariant rebuilt + Joined(lines[index..]) == Joined(lines)
    {
      assert lines[index..][1..] == lines[index + 1..];
      rebuilt := rebuilt + lines[index];
      if index + 1 < |lines| {
        rebuilt := rebuilt + CRLF;
      }
    }
  }

  // ---------- reading back what was printed ----------

  /** What parsing guarantees of header names and values. */
  ghost predicate Readable(headers: HeaderMap) {
    forall name | name in headers :: ':' !in name && SkipSpace(headers[name]) == headers[name]
  }

  /** What printing needs: entries that become the Content-Length line do not matter. */
  ghost predicate FieldsReadable(headers: HeaderMap) {
    forall name | name in headers && !IsLengthName(name) :: ':' !in name && SkipSpace(headers[name]) == headers[name]
  }

  ghost predicate EntriesLfFree(headers: HeaderMap) {
    forall name | name in headers :: NoLf(name) && NoLf(headers[name])
  }

  lemma ParsedHeadersReadable(lines: seq<string>)
    requires LfFree(lines)
    ensures EntriesLfFree(HeadersOf(lines)) && Readable(HeadersOf(lines))
  {
    hide HeadersOf;
    forall name | name in HeadersOf(lines)
      ensures NoLf(name) && NoLf(HeadersOf(lines)[name])
      ensures ':' !in name && SkipSpace(HeadersOf(lines)[name]) == HeadersOf(lines)[name]
    {
      HeadersComeFromLines(lines, name);
      var i :| 0 <= i < |lines| && ParseHeader(lines[i]) == Some(Header(name, HeadersOf(lines)[name]));
      ParsedHeaderShape(lines[i]);
    }
  }

  lemma ParsedHeaderShape(line: string)
    requires NoLf(line) && ParseHeader(line).Some?
    ensures var h := ParseHeader(line).value;
            NoLf(h.name) && NoLf(h.value) && ':' !in h.name && SkipSpace(h.value) == h.value
  {
    hide Find, At, SkipSpace, NoLf;
    var i := Find(line, ":", 0).value;
    FindLeftmost(line, ":", 0);
    NoColonBefore(line, i);
    SliceNoLf(line, 0, i);
    assert line[..i] == line[0..i];
    SliceNoLf(line, i + 1, |line|);
    assert line[i + 1..] == line[i + 1..|line|];
    SkippedNoLf(line[i + 1..]);
  }

  lemma NoColonBefore(line: string, i: nat)
    requires i <= |line| && AbsentIn(line, ":", 0, i)
    ensures ':' !in line[..i]
  {
    hide At;
    forall j: nat | j < i ensures line[..i][j] != ':' {
      AtChar(line, ':', j);
    }
  }

  lemma SkippedNoLf(text: string)
    requires NoLf(text)
    ensures NoLf(SkipSpace(text)) && SkipSpace(SkipSpace(text)) == SkipSpace(text)
  {
    hide NoLf, SkipSpace;
    SkipSpaceTwice(text);
    SuffixNoLf(text, |text| - |SkipSpace(text)|);
  }

  lemma SuffixNoLf(text: string, i: nat)
    requires NoLf(text) && i <= |text|
    ensures NoLf(text[i..])
  {
    hide NoLf;
    SliceNoLf(text, i, |text|);
    assert text[i..|text|] == text[i..];
  }

  lemma ParsePrinted(name: string, value: string)
    requires ':' !in name && SkipSpace(value) == value
    ensures ParseHeader(name + ": " + value) == Some(Header(name, value))
  {
    hide Find, At, SkipSpace;
    var line := name + ": " + value;
    AtChar(line, ':', |name|);
    forall j: nat | j < |name| ensures !At(line, ":", j) {
      assert line[j] == name[j];
      AtChar(line, ':', j);
    }
    FindIs(line, ":", 0, |name|);
    assert line[..|name|] == name && line[|name| + 1..] == " " + value;
    SkipOneSpace(value);
  }

  lemma ParseLengthLine(n: nat)
    ensures ParseHeader(LengthLine(n)) == Some(Header(LENGTH_NAME, Decimal(n)))
  {
    hide ParseHeader, Decimal;
    assert IsDigit(Decimal(n)[0]);
    ParsePrinted(LENGTH_NAME, Decimal(n));
  }

  /** The printed headers: all names that begin with Content-Length become one Content-Length. */
  function Collapsed(headers: HeaderMap, bodySize: nat): HeaderMap {
    (map name | name in headers && !IsLengthName(name) :: headers[name])[LENGTH_NAME := Decimal(bodySize)]
  }

  lemma LengthNameIsLengthName()
    ensures IsLengthName(LENGTH_NAME)
  {
    assert LENGTH_NAME[..|LENGTH_NAME|] == LENGTH_NAME;
  }

  /** How each printed field line reads. */
  lemma ParseFieldLine(order: seq<string>, headers: HeaderMap, n: nat, i: nat)
    requires IsOrder(order, headers) && FieldsReadable(headers)
    requires i < |FieldLines(order, headers, n)|
    ensures ParseHeader(FieldLines(order, headers, n)[i]) ==
            if i < |order| && !IsLengthName(order[i]) then Some(Header(order[i], headers[order[i]]))
            else Some(Header(LENGTH_NAME, Decimal(n)))
  {
    hide ParseHeader, LengthLine, StartsWithIgnoreCase;
    ParseLengthLine(n);
    if i < |order| && !IsLengthName(order[i]) {
      ParsePrinted(order[i], headers[order[i]]);
    }
  }

  /** Header round trip: reading the printed head gives the same map, for every visiting order, with
      the Content-Length names collapsed to the body size. */
  lemma HeadRoundTrip(startLine: string, order: seq<string>, headers: HeaderMap, n: nat)
    requires NoLf(startLine) && IsOrder(order, headers) && FieldsReadable(headers)
    requires LfFree(FieldLines(order, headers, n))
    ensures var lines := LinesOf(Terminated([startLine] + FieldLines(order, headers, n)));
            lines != [] && lines[0] == startLine && HeadersOf(lines[1..]) == Collapsed(headers, n)
  {
    hide LinesOf, Terminated, FieldLines, HeadersOf, Collapsed;
    var fields := FieldLines(order, headers, n);
    LinesOfTerminated([startLine] + fields, "");
    LinesOfLast("");
    assert Terminated([startLine] + fields) + "" == Terminated([startLine] + fields);
    assert ([startLine] + fields + [])[1..] == fields;
    FieldsReadBack(order, headers, n);
  }

  lemma FieldsReadBack(order: seq<string>, headers: HeaderMap, n: nat)
    requires IsOrder(order, headers) && FieldsReadable(headers)
    ensures HeadersOf(FieldLines(order, headers, n)) == Collapsed(headers, n)
  {
    hide HeadersOf, ParseHeader, FieldLines, Collapsed;
    var fields := FieldLines(order, headers, n);
    var read, want := HeadersOf(fields), Collapsed(headers, n);
    forall i | 0 <= i < |fields|
      ensures ParseHeader(fields[i]).Some?
      ensures var h := ParseHeader(fields[i]).value; h.name in want && want[h.name] == h.value
    {
      FieldIsWanted(order, headers, n, i);
    }
    forall name | name in read ensures name in want && want[name] == read[name] {
      HeadersComeFromLines(fields, name);
    }
    forall name | name in want ensures name in read && read[name] == want[name] {
      var i := FieldCarrying(order, headers, n, name);
      HeadersUniform(fields, Header(name, want[name]));
    }
  }

  lemma FieldIsWanted(order: seq<string>, headers: HeaderMap, n: nat, i: nat)
    requires IsOrder(order, headers) && FieldsReadable(headers)
    requires i < |FieldLines(order, headers, n)|
    ensures ParseHeader(FieldLines(order, headers, n)[i]).Some?
    ensures var h := ParseHeader(FieldLines(order, headers, n)[i]).value;
            h.name in Collapsed(headers, n) && Collapsed(headers, n)[h.name] == h.value
  {
    hide ParseHeader, Decimal, StartsWithIgnoreCase, FieldLines, HeaderLines, FieldsReadable;
    LengthNameIsLengthName();
    ParseFieldLine(order, headers, n, i);
  }

  lemma FieldCarrying(order: seq<string>, headers: HeaderMap, n: nat, name: string) returns (i: nat)
    requires IsOrder(order, headers) && FieldsReadable(headers)
    requires name in Collapsed(headers, n)
    ensures i < |FieldLines(order, headers, n)|
    ensures ParseHeader(FieldLines(order, headers, n)[i]) == Some(Header(name, Collapsed(headers, n)[name]))
  {
    hide ParseHeader, Decimal, StartsWithIgnoreCase;
    LengthNameIsLengthName();
    if name != LENGTH_NAME {
      i :| 0 <= i < |order| && order[i] == name;
    } else {
      LengthInOrder(order, headers);
      if HasLength(headers) {
        i :| 0 <= i < |order| && IsLengthName(order[i]);
      } else {
        i := |order|;
      }
    }
    ParseFieldLine(order, headers, n, i);
  }

  // ---------- reading back what is sent ----------

  /** The head is sent as joined lines, so its last line is read without a CR LF of its own: a value
      that is printed there loses one trailing CR. */
  function AsSent(order: seq<string>, headers: HeaderMap): HeaderMap
    requires forall i | 0 <= i < |order| :: order[i] in headers
  {
    if order == [] || !HasLength(headers) then headers
    else
      var last := order[|order| - 1];
      if IsLengthName(last) then headers else headers[last := StripCr(headers[last])]
  }

  lemma AsSentKeeps(order: seq<string>, headers: HeaderMap)
    requires IsOrder(order, headers)
    ensures var sent := AsSent(order, headers);
            IsOrder(order, sent) && (HasLength(sent) <==> HasLength(headers))
  {
    hide StripCr, IsLengthName, HasLength;
    assert AsSent(order, headers).Keys == headers.Keys;
    hide IsOrder, AsSent;
    OrderOfKeys(order, headers, AsSent(order, headers));
  }

  lemma AsSentReadable(order: seq<string>, headers: HeaderMap)
    requires IsOrder(order, headers) && FieldsReadable(headers)
    ensures FieldsReadable(AsSent(order, headers))
  {
    hide StripCr, IsLengthName, SkipSpace, HasLength, FieldsReadable;
    if AsSent(order, headers) != headers {
      var last := order[|order| - 1];
      hide IsOrder;
      ReadableField(headers, last);
      StripPrinted(last, headers[last]);
      UpdateReadable(headers, last, StripCr(headers[last]));
    }
  }

  lemma ReadableField(headers: HeaderMap, name: string)
    requires FieldsReadable(headers) && name in headers && !IsLengthName(name)
    ensures ':' !in name && SkipSpace(headers[name]) == headers[name]
  {
    hide SkipSpace, IsLengthName;
  }

  lemma UpdateReadable(headers: HeaderMap, name: string, value: string)
    requires FieldsReadable(headers) && ':' !in name && SkipSpace(value) == value
    ensures FieldsReadable(headers[name := value])
  {
    hide SkipSpace, IsLengthName;
    forall other | other in headers[name := value] && !IsLengthName(other)
      ensures ':' !in other && SkipSpace(headers[name := value][other]) == headers[name := value][other]
    {
      if other != name { assert other in headers; }
    }
  }

  lemma OrderOfKeys(order: seq<string>, a: HeaderMap, b: HeaderMap)
    requires IsOrder(order, a) && a.Keys == b.Keys
    ensures IsOrder(order, b) && (HasLength(b) <==> HasLength(a))
  {
    hide IsLengthName;
    forall name ensures name in a <==> name in b {
      assert name in a.Keys <==> name in b.Keys;
    }
  }

  lemma FieldAsRead(order: seq<string>, headers: HeaderMap, n: nat, i: nat)
    requires IsOrder(order, headers) && IsOrder(order, AsSent(order, headers))
    requires HasLength(AsSent(order, headers)) <==> HasLength(headers)
    requires i < |FieldLines(order, headers, n)|
    ensures var fields, sent := FieldLines(order, headers, n), FieldLines(order, AsSent(order, headers), n);
            && |sent| == |fields|
            && (i < |fields| - 1 ==> sent[i] == fields[i])
            && (i == |fields| - 1 ==> fields[i] != "" && sent[i] == StripCr(fields[i]))
  {
    hide StripCr, LengthLine, StartsWithIgnoreCase;
    LengthLineKeepsItsEnd(n);
    if i < |order| { StripPrinted(order[i], headers[order[i]]); }
  }

  /** The fields as they are read are the fields of the headers as sent. */
  lemma FieldsAsRead(order: seq<string>, headers: HeaderMap, n: nat)
    requires IsOrder(order, headers)
    ensures var sent := AsSent(order, headers);
            && IsOrder(order, sent)
            && FieldLines(order, headers, n) != []
            && AsRead(FieldLines(order, headers, n)) == FieldLines(order, sent, n)
  {
    hide AsSent, StripCr, HeaderLines, IsLengthName, LengthLine, HasLength;
    AsSentKeeps(order, headers);
    SomeField(order, headers, n);
    var fields, sent := FieldLines(order, headers, n), FieldLines(order, AsSent(order, headers), n);
    hide IsOrder, FieldLines;
    FieldAsRead(order, headers, n, |fields| - 1);
    forall i: nat | i < |fields| - 1 ensures sent[i] == fields[i] { FieldAsRead(order, headers, n, i); }
    assert AsRead(fields) == sent;
  }

  lemma SomeField(order: seq<string>, headers: HeaderMap, n: nat)
    requires IsOrder(order, headers)
    ensures FieldLines(order, headers, n) != []
  {
    hide IsLengthName, LengthLine;
    LengthInOrder(order, headers);
  }

  lemma StripPrinted(name: string, value: string)
    ensures StripCr(name + ": " + value) == name + ": " + StripCr(value)
    ensures name + ": " + value != ""
    ensures SkipSpace(value) == value ==> SkipSpace(StripCr(value)) == StripCr(value)
  {
  }

  lemma LengthLineKeepsItsEnd(n: nat)
    ensures StripCr(LengthLine(n)) == LengthLine(n) && LengthLine(n) != ""
  {
    hide Decimal;
    var line := LengthLine(n);
    assert line[|line| - 1] == Decimal(n)[|Decimal(n)| - 1];
  }
}
