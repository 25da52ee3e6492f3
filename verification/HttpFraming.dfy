/** Where printing meets reassembly: how the reassembly buffer cuts the messages the HTTP adapter
    prints (src/protocol/http_protocol_adapter.cpp, src/transport/tcp_reassembly_buffer.cpp). */
module HttpFraming {
  import opened Text
  import opened RuleModel
  import opened HttpHead
  import opened Framing

  /** The head lines the adapter sends: the start line, then the fields. */
  function SentLines(startLine: string, order: seq<string>, headers: HeaderMap, bodySize: nat): seq<string>
    requires forall i | 0 <= i < |order| :: order[i] in headers
  {
    [FixedLine(startLine, bodySize)] + FieldLines(order, headers, bodySize)
  }

  function Printed(startLine: string, order: seq<string>, headers: HeaderMap, body: string): string
    requires forall i | 0 <= i < |order| :: order[i] in headers
  {
    Joined(SentLines(startLine, order, headers, |body|)) + HEAD_END + body
  }

  // ---------- the lines that are printed ----------

  lemma LengthLineShape(n: nat)
    ensures NoLf(LengthLine(n)) && IsLengthLine(LengthLine(n)) && LengthLine(n) != ""
    ensures FixedLine(LengthLine(n), n) == LengthLine(n)
  {
    var line := LengthLine(n);
    forall c | c in line ensures c != '\n' {
      var i :| 0 <= i < |line| && line[i] == c;
      if i >= 16 { assert line[i] == Decimal(n)[i - 16]; }
    }
    assert line[..15] == "Content-Length:";
  }

  /** A header whose name does not begin with Content-Length never prints as a Content-Length line. */
  lemma OtherLineShape(name: string, value: string, n: nat)
    requires !IsLengthName(name)
    ensures FixedLine(name + ": " + value, n) == name + ": " + value
  {
    if IsLengthLine(name + ": " + value) { LengthLineHasLengthName(name, value); }
  }

  lemma LengthLineHasLengthName(name: string, value: string)
    requires IsLengthLine(name + ": " + value)
    ensures IsLengthName(name)
  {
    var line := name + ": " + value;
    var prefix := "Content-Length:";
    assert forall i | 0 <= i < |prefix| :: ToLower(line[..|prefix|])[i] == LowerChar(line[i]);
    assert line[|name|] == ':';
    forall i | 0 <= i < 14 ensures LowerChar(line[i]) == LowerChar(LENGTH_NAME[i]) && line[i] != ':' {
      assert prefix[i] == LENGTH_NAME[i];
      assert ToLower(prefix)[i] == LowerChar(prefix[i]);
    }
    assert |name| >= 14;
    assert ToLower(name[..14]) == ToLower(LENGTH_NAME);
  }

  lemma FieldLinesShape(order: seq<string>, headers: HeaderMap, n: nat)
    requires IsOrder(order, headers) && EntriesLfFree(headers)
    ensures var lines := FieldLines(order, headers, n);
            LfFree(lines) && HasLengthLine(lines)
            && forall i | 0 <= i < |lines| :: lines[i] != "" && FixedLine(lines[i], n) == lines[i]
  {
    hide FixedLine, LengthLine, StartsWithIgnoreCase;
    var lines := FieldLines(order, headers, n);
    LengthLineShape(n);
    forall i | 0 <= i < |lines| ensures NoLf(lines[i]) && lines[i] != "" && FixedLine(lines[i], n) == lines[i] {
      if i < |order| && !IsLengthName(order[i]) {
        OtherLineShape(order[i], headers[order[i]], n);
      }
    }
    LengthInOrder(order, headers);
    if HasLength(headers) {
      var i :| 0 <= i < |order| && IsLengthName(order[i]);
      assert lines[i] == LengthLine(n);
    } else {
      assert lines[|lines| - 1] == LengthLine(n);
    }
  }

  /** The second Content-Length pass changes no field line; it rewrites the start line only when that
      line itself reads as a Content-Length field. */
  lemma SecondPass(startLine: string, order: seq<string>, headers: HeaderMap, n: nat)
    requires NoLf(startLine) && IsOrder(order, headers) && EntriesLfFree(headers)
    ensures WithLength(LinesOf(Terminated([startLine] + FieldLines(order, headers, n))), n)
         == SentLines(startLine, order, headers, n)
    ensures SentLines(startLine, order, headers, n) == [startLine] + FieldLines(order, headers, n)
            <==> IsLengthLine(startLine) ==> startLine == LengthLine(n)
  {
    hide LinesOf, Terminated, FieldLines, LengthLine, StartsWithIgnoreCase;
    var fields := FieldLines(order, headers, n);
    var lines := [startLine] + fields;
    FieldLinesShape(order, headers, n);
    LinesOfTerminated(lines, "");
    LinesOfLast("");
    assert Terminated(lines) + "" == Terminated(lines);
    assert lines + [] == lines;
    var i :| 0 <= i < |fields| && IsLengthLine(fields[i]);
    assert IsLengthLine(lines[i + 1]);
    assert WithLength(lines, n) == SentLines(startLine, order, headers, n);
    assert SentLines(startLine, order, headers, n)[0] == FixedLine(startLine, n);
  }

  // ---------- the end of the head ----------

  lemma NoLfAt(text: string, p: string, j: nat, k: nat)
    requires j + k < |text| && k < |p| && p[k] == '\n' && text[j + k] != '\n'
    ensures !At(text, p, j)
  {
    if At(text, p, j) { AtByte(text, p, j, k); }
  }

  /** In LF-free lines, none empty after the first, the head ends where the lines end. */
  lemma {:induction false} HeadEndAt(lines: seq<string>, body: string)
    requires lines != [] && LfFree(lines)
    requires forall i | 1 <= i < |lines| :: lines[i] != ""
    ensures |Terminated(lines)| >= 2
    ensures Find(Terminated(lines) + CRLF + body, HEAD_END, 0) == Some(|Terminated(lines)| - 2)
    decreases |lines|
  {
    hide Find, At, Terminated;
    var line := lines[0];
    var tail := Terminated(lines[1..]) + CRLF + body;
    TerminatedFirst(lines);
    assert Terminated(lines) + CRLF + body == line + CRLF + tail;
    if |lines| == 1 {
      OneLineHead(line, body);
      TerminatedNone(lines[1..]);
      assert line + CRLF + tail == line + HEAD_END + body;
    } else {
      var rest := Terminated(lines[1..][1..]) + CRLF + body;
      TerminatedFirst(lines[1..]);
      assert tail == lines[1] + CRLF + rest;
      HeadEndIsLater(line, lines[1], rest);
      HeadEndAt(lines[1..], body);
    }
  }

  lemma TerminatedFirst(lines: seq<string>)
    requires lines != []
    ensures Terminated(lines) == lines[0] + CRLF + Terminated(lines[1..])
  {
  }

  lemma TerminatedNone(lines: seq<string>)
    requires lines == []
    ensures Terminated(lines) == ""
  {
  }

  lemma OneLineHead(line: string, body: string)
    requires NoLf(line)
    ensures Find(line + HEAD_END + body, HEAD_END, 0) == Some(|line|)
  {
    hide Find, At;
    NoHeadEndInLine(line, CRLF + body);
    assert line + CRLF + (CRLF + body) == line + HEAD_END + body;
    HeadEndHere(line, body);
    FindIs(line + HEAD_END + body, HEAD_END, 0, |line|);
  }

  lemma NoHeadEndInLine(line: string, tail: string)
    requires NoLf(line)
    ensures AbsentIn(line + CRLF + tail, HEAD_END, 0, |line|)
  {
    hide At;
    var text := line + CRLF + tail;
    forall j: nat | j < |line| ensures !At(text, HEAD_END, j) {
      assert text[j + 1] != '\n' by { if j + 1 < |line| { assert text[j + 1] == line[j + 1]; } }
      NoLfAt(text, HEAD_END, j, 1);
    }
  }

  /** When another non-empty line follows, the head does not end with this one. */
  lemma HeadEndIsLater(line: string, next: string, rest: string)
    requires NoLf(line) && NoLf(next) && next != ""
    ensures var tail := next + CRLF + rest;
            Find(line + CRLF + tail, HEAD_END, 0) == Shifted(Find(tail, HEAD_END, 0), |line| + 2)
  {
    hide Find, At;
    var tail := next + CRLF + rest;
    var text := line + CRLF + tail;
    NoHeadEndInLine(line, tail);
    assert tail[1] != '\n' by { if |next| > 1 { assert tail[1] == next[1]; } }
    assert text[|line| + 3] == tail[1] && text[|line| + 1] == '\n';
    NoLfAt(text, HEAD_END, |line|, 3);
    FirstCharDiffers(text, HEAD_END, |line| + 1);
    FindShift(line + CRLF, tail, HEAD_END);
  }

  /** Splitting a printed message gives back its head and its body. */
  lemma PrintedSplits(startLine: string, order: seq<string>, headers: HeaderMap, body: string)
    requires NoLf(startLine) && IsOrder(order, headers) && EntriesLfFree(headers)
    ensures var head := Joined(SentLines(startLine, order, headers, |body|));
            var m := Printed(startLine, order, headers, body);
            Find(m, HEAD_END, 0) == Some(|head|) && m[..|head|] == head && m[|head| + 4..] == body
  {
    hide Find, Joined, Terminated, SentLines;
    var lines := SentLines(startLine, order, headers, |body|);
    SentLinesShape(startLine, order, headers, |body|);
    TerminatedIsJoined(lines);
    assert Terminated(lines) + CRLF + body == Printed(startLine, order, headers, body);
    HeadEndAt(lines, body);
  }

  lemma HeadEndHere(line: string, body: string)
    ensures At(line + HEAD_END + body, HEAD_END, |line|)
  {
    assert (line + HEAD_END + body)[|line|..|line| + 4] == HEAD_END;
  }

  // ---------- Content-Length, line by line ----------

  /** The line holds the key the reassembly buffer looks for, anywhere and in any case. */
  predicate CarriesKey(line: string) {
    Contains(ToLower(line), LENGTH_KEY)
  }

  /** The length announced by a line that carries the key. */
  function AnnouncedBy(line: string): (r: nat)
    requires CarriesKey(line)
    ensures r < SIZE_T
  {
    ValueOr0(ToLower(line)[Find(ToLower(line), LENGTH_KEY, 0).value + |LENGTH_KEY|..])
  }

  /** The first line that carries the key decides; without one the length is 0. */
  function DeclaredLength(lines: seq<string>): (r: nat)
    ensures r < SIZE_T
  {
    if lines == [] then 0
    else if CarriesKey(lines[0]) then AnnouncedBy(lines[0])
    else DeclaredLength(lines[1..])
  }

  lemma KeyAvoids(lower: string, j: nat, at: nat)
    requires j <= at < j + |LENGTH_KEY| && at < |lower| && (lower[at] == '\r' || lower[at] == '\n')
    ensures !At(lower, LENGTH_KEY, j)
  {
    if At(lower, LENGTH_KEY, j) { AtByte(lower, LENGTH_KEY, j, at - j); }
  }

  /** A line without the key can be skipped. */
  lemma ContentLengthSkips(line: string, rest: string)
    requires NoLf(line) && !CarriesKey(line)
    ensures ContentLength(line + CRLF + rest) == ContentLength(rest)
  {
    hide At, Find, ToLower, ValueOr0;
    var a := ToLower(line + CRLF);
    var b := ToLower(rest);
    ToLowerConcat(line + CRLF, rest);
    ToLowerConcat(line, CRLF);
    var lower := a + b;
    forall j: nat | j < |a| ensures !At(lower, LENGTH_KEY, j) {
      if j + |LENGTH_KEY| <= |line| {
        assert lower == ToLower(line) + (ToLower(CRLF) + b);
        AtAppend(ToLower(line), ToLower(CRLF) + b, LENGTH_KEY, j);
        FindLeftmost(ToLower(line), LENGTH_KEY, 0);
      } else if j <= |line| {
        KeyAvoids(lower, j, |line|);
      } else {
        KeyAvoids(lower, j, |line| + 1);
      }
    }
    FindShift(a, b, LENGTH_KEY);
    if Find(b, LENGTH_KEY, 0).Some? {
      var k := Find(b, LENGTH_KEY, 0).value;
      FindPast(a, b, CRLF, k);
      if Find(b, CRLF, k).Some? {
        var e := Find(b, CRLF, k).value;
        FindLeftmost(b, LENGTH_KEY, 0);
        FindLeftmost(b, CRLF, k);
        KeyHasNoCr(b, k, e);
        assert lower[|a| + k + |LENGTH_KEY|..|a| + e] == b[k + |LENGTH_KEY|..e];
      }
    }
  }

  /** A line with the key decides. */
  lemma ContentLengthStops(line: string, rest: string)
    requires NoLf(line) && CarriesKey(line)
    ensures ContentLength(line + CRLF + rest) == AnnouncedBy(line)
  {
    hide At, Find, ToLower, ValueOr0;
    var l := ToLower(line);
    var k := Find(l, LENGTH_KEY, 0).value;
    ToLowerConcat(line + CRLF, rest);
    ToLowerConcat(line, CRLF);
    var tail := ToLower(CRLF) + ToLower(rest);
    var lower := ToLower(line + CRLF + rest);
    assert lower == l + tail;
    FindStable(l, tail, LENGTH_KEY, 0);
    assert lower[|line|..|line| + 2] == CRLF;
    assert At(lower, CRLF, |line|) by { AtHere(lower, CRLF, |line|); }
    forall j: nat | k <= j < |line| ensures !At(lower, CRLF, j) {
      assert lower[j + 1] != '\n' by { if j + 1 < |line| { assert lower[j + 1] == l[j + 1]; } }
      NoLfAt(lower, CRLF, j, 1);
    }
    FindIs(lower, CRLF, k, |line|);
    FindLeftmost(lower, LENGTH_KEY, 0);
    KeyHasNoCr(lower, k, |line|);
    assert lower[k + |LENGTH_KEY|..|line|] == l[k + |LENGTH_KEY|..];
  }

  /** Reading Content-Length off the raw head is reading it line by line. */
  lemma {:induction false} ContentLengthByLines(lines: seq<string>)
    requires LfFree(lines)
    ensures ContentLength(Terminated(lines) + CRLF) == DeclaredLength(lines)
  {
    hide ContentLength, CarriesKey, AnnouncedBy;
    if lines == [] {
      assert Terminated(lines) + CRLF == CRLF;
      NoKeyInCrlf();
    } else {
      var rest := Terminated(lines[1..]) + CRLF;
      assert Terminated(lines) + CRLF == lines[0] + CRLF + rest;
      ContentLengthByLines(lines[1..]);
      if CarriesKey(lines[0]) { ContentLengthStops(lines[0], rest); } else { ContentLengthSkips(lines[0], rest); }
    }
  }

  lemma NoKeyInCrlf()
    ensures ContentLength(CRLF) == 0
  {
  }

  // ---------- a length as it is written ----------

  /** What a Content-Length line says whose value is written with blanks, a sign or text around the
      number: `stoull` reads the number and ignores the rest, and what it cannot read is 0. */
  function SpelledLength(sign: string, digits: string): (n: nat)
    requires AllDigits(digits)
    ensures n < SIZE_T
  {
    if digits == "" || DecimalValue(digits) >= SIZE_T then 0
    else if sign == "-" && DecimalValue(digits) > 0 then SIZE_T - DecimalValue(digits)
    else DecimalValue(digits)
  }

  lemma SpelledLineAnnounces(name: string, pad: string, sign: string, digits: string, rest: string)
    requires ToLower(name) == LENGTH_KEY && Spelling(pad, sign, digits, rest)
    ensures var line := name + (pad + (sign + (digits + rest)));
            CarriesKey(line) && AnnouncedBy(line) == SpelledLength(sign, digits)
  {
    hide Find, At, ParseUnsigned, DecimalValue, ToLower, Spelling;
    var value := pad + (sign + (digits + rest));
    var lower := ToLower(name + value);
    ToLowerConcat(name, value);
    LowerSpelling(pad, sign, digits, rest);
    AtHere(lower, LENGTH_KEY, 0);
    FindIs(lower, LENGTH_KEY, 0, 0);
    assert lower[|LENGTH_KEY|..] == ToLower(value);
    ParseSpelled(pad, sign, digits, ToLower(rest), SIZE_T - 1);
    assert AllDigits(digits) by { SpelledDigits(pad, sign, digits, rest); }
  }

  lemma SpelledDigits(pad: string, sign: string, digits: string, rest: string)
    requires Spelling(pad, sign, digits, rest)
    ensures AllDigits(digits)
  {
  }

  lemma LowerSpelling(pad: string, sign: string, digits: string, rest: string)
    requires Spelling(pad, sign, digits, rest)
    ensures Spelling(pad, sign, digits, ToLower(rest))
    ensures ToLower(pad + (sign + (digits + rest))) == pad + (sign + (digits + ToLower(rest)))
  {
    ToLowerConcat(pad, sign + (digits + rest));
    ToLowerConcat(sign, digits + rest);
    ToLowerConcat(digits, rest);
    assert ToLower(pad) == pad && ToLower(sign) == sign && ToLower(digits) == digits;
    assert rest != "" ==> ToLower(rest)[0] == LowerChar(rest[0]);
  }

  /** `lines` are a head in which the first Content-Length line is the one written that way. */
  ghost predicate SpelledHead(lines: seq<string>, at: nat, name: string, pad: string, sign: string, digits: string,
                              rest: string)
  {
    && 1 <= at < |lines| && LfFree(lines) && (forall i | 1 <= i < |lines| :: lines[i] != "")
    && (forall i | 0 <= i < at :: !CarriesKey(lines[i]))
    && ToLower(name) == LENGTH_KEY && Spelling(pad, sign, digits, rest)
    && lines[at] == name + (pad + (sign + (digits + rest)))
  }

  lemma {:induction false} FirstCarrierDeclares(lines: seq<string>, at: nat)
    requires at < |lines| && CarriesKey(lines[at]) && forall i | 0 <= i < at :: !CarriesKey(lines[i])
    ensures DeclaredLength(lines) == AnnouncedBy(lines[at])
    decreases at
  {
    hide CarriesKey, AnnouncedBy;
    if at > 0 {
      assert lines[1..][at - 1] == lines[at];
      assert forall i | 0 <= i < at - 1 :: lines[1..][i] == lines[i + 1];
      FirstCarrierDeclares(lines[1..], at - 1);
    }
  }

  /** The message taken off a buffer is the head and as many bytes as the number says, whatever is
      written around that number and whatever follows; before they have arrived nothing is taken. */
  lemma SpelledMessageIsTaken(lines: seq<string>, at: nat, name: string, pad: string, sign: string, digits: string,
                              rest: string, body: string)
    requires SpelledHead(lines, at, name, pad, sign, digits, rest) && AllDigits(digits)
    requires |Joined(lines) + HEAD_END| + SpelledLength(sign, digits) < SIZE_T
    ensures var head, n := Joined(lines) + HEAD_END, SpelledLength(sign, digits);
            Take(head + body) == if n <= |body| then Some(Frame(head + body[..n], body[n..])) else None
  {
    hide Find, ContentLength, DeclaredLength, Joined, Terminated, CarriesKey, AnnouncedBy, SpelledLength;
    var t, n := Terminated(lines), SpelledLength(sign, digits);
    SpelledLineAnnounces(name, pad, sign, digits, rest);
    FirstCarrierDeclares(lines, at);
    TerminatedIsJoined(lines);
    var head, m := Joined(lines) + HEAD_END, t + CRLF + body;
    assert m == head + body;
    HeadEndAt(lines, body);
    ContentLengthByLines(lines);
    assert m[..|t| + 2] == t + CRLF;
    assert |head| == |t| + 2;
    if n <= |body| {
      assert m[..|head| + n] == head + body[..n] && m[|head| + n..] == body[n..];
    }
  }

  /** One trailing blank: the five bytes are the body, not the next message. */
  lemma SpacedLengthExample()
    ensures Take("POST / HTTP/1.1\r\n" + "Content-Length: 5 " + HEAD_END + "hello")
         == Some(Frame("POST / HTTP/1.1\r\n" + "Content-Length: 5 " + HEAD_END + "hello", ""))
  {
    hide Take, Joined, CarriesKey;
    var start, line := "POST / HTTP/1.1", "Content-Length: 5 ";
    var lines := [start, line];
    assert line == "Content-Length:" + (" " + ("" + ("5" + " ")));
    LoweredKey();
    SpacedStart();
    assert SpelledHead(lines, 1, "Content-Length:", " ", "", "5", " ");
    JoinedTwo(start, line);
    FiveIsFive();
    SpelledMessageIsTaken(lines, 1, "Content-Length:", " ", "", "5", " ", "hello");
    assert "hello"[..5] == "hello";
    assert start + CRLF + line + HEAD_END == "POST / HTTP/1.1\r\n" + "Content-Length: 5 " + HEAD_END;
  }

  lemma SpacedStart()
    ensures NoLf("POST / HTTP/1.1") && NoLf("Content-Length: 5 ") && !CarriesKey("POST / HTTP/1.1")
  {
    hide Find;
    assert 'c' !in ToLower("POST / HTTP/1.1");
    AbsentFirstChar(ToLower("POST / HTTP/1.1"), LENGTH_KEY);
  }

  lemma FiveIsFive()
    ensures AllDigits("5") && SpelledLength("", "5") == 5
  {
    assert DecimalValue("5"[..0]) == 0;
  }

  lemma JoinedTwo(a: string, b: string)
    ensures Joined([a, b]) == a + CRLF + b
  {
    assert [a, b][1..] == [b];
  }

  // ---------- self-framing ----------

  /** A printed message frames itself exactly when its lines declare the size of its body. */
  lemma FramedIffDeclared(lines: seq<string>, body: string)
    requires lines != [] && LfFree(lines) && forall i | 1 <= i < |lines| :: lines[i] != ""
    ensures SelfFramed(Joined(lines) + HEAD_END + body) <==>
              DeclaredLength(lines) == |body| && |Joined(lines) + HEAD_END + body| < SIZE_T
  {
    hide Find, ContentLength, DeclaredLength, Joined, Terminated;
    var t := Terminated(lines);
    var m := t + CRLF + body;
    TerminatedIsJoined(lines);
    assert m == Joined(lines) + HEAD_END + body;
    HeadEndAt(lines, body);
    ContentLengthByLines(lines);
    assert m[..|t| + 2] == t + CRLF;
    var d := DeclaredLength(lines);
    assert FrameLength(m, |t| - 2) == (|t| + 2 + d) % SIZE_T;
    if d == |body| && |m| < SIZE_T {
      assert m[..|m|] == m && m[|m|..] == "";
    }
  }

  /** When the lines declare more than the body holds, the buffer waits for the rest. */
  lemma WaitsForDeclared(lines: seq<string>, body: string)
    requires lines != [] && LfFree(lines) && forall i | 1 <= i < |lines| :: lines[i] != ""
    requires DeclaredLength(lines) > |body| && |Joined(lines) + HEAD_END| + DeclaredLength(lines) < SIZE_T
    ensures Take(Joined(lines) + HEAD_END + body).None?
  {
    hide Find, ContentLength, DeclaredLength, Joined, Terminated;
    var t := Terminated(lines);
    var m := t + CRLF + body;
    TerminatedIsJoined(lines);
    assert m == Joined(lines) + HEAD_END + body;
    HeadEndAt(lines, body);
    ContentLengthByLines(lines);
    assert m[..|t| + 2] == t + CRLF;
    FrameShape(m, |t| - 2);
  }

  lemma LengthLineAnnounces(n: nat)
    requires n < SIZE_T
    ensures CarriesKey(LengthLine(n)) && AnnouncedBy(LengthLine(n)) == n
  {
    hide Find, At, ParseUnsigned, Decimal;
    var lower := ToLower(LengthLine(n));
    DigitsStayLower(Decimal(n));
    ToLowerConcat(LENGTH_NAME + ": ", Decimal(n));
    assert ToLower(LENGTH_NAME + ": ") == LENGTH_KEY + " ";
    assert lower == LENGTH_KEY + (" " + Decimal(n));
    AtHere(lower, LENGTH_KEY, 0);
    FindIs(lower, LENGTH_KEY, 0, 0);
    assert lower[|LENGTH_KEY|..] == " " + Decimal(n);
    ParseDecimal(n, SIZE_T - 1);
  }

  lemma DigitsStayLower(digits: string)
    requires AllDigits(digits)
    ensures ToLower(digits) == digits
  {
  }

  lemma {:induction false} DeclaredByAll(lines: seq<string>, n: nat)
    requires forall i | 0 <= i < |lines| && CarriesKey(lines[i]) :: AnnouncedBy(lines[i]) == n
    requires exists i | 0 <= i < |lines| :: CarriesKey(lines[i])
    ensures DeclaredLength(lines) == n
  {
    hide CarriesKey, AnnouncedBy;
    if !CarriesKey(lines[0]) {
      var i :| 0 <= i < |lines| && CarriesKey(lines[i]);
      assert lines[1..][i - 1] == lines[i];
      DeclaredByAll(lines[1..], n);
    }
  }

  /** The header neither is rewritten to the body size nor hides the key inside its line. */
  predicate Harmless(name: string, value: string) {
    IsLengthName(name) || !CarriesKey(name + ": " + value)
  }

  /** What a caller can check before printing: the start line is itself rewritten, or nothing that is
      printed as it stands holds the key. */
  predicate Clean(startLine: string, headers: HeaderMap) {
    || IsLengthLine(startLine)
    || (!CarriesKey(startLine) && forall name | name in headers :: Harmless(name, headers[name]))
  }

  lemma SentLinesShape(startLine: string, order: seq<string>, headers: HeaderMap, n: nat)
    requires NoLf(startLine) && IsOrder(order, headers) && EntriesLfFree(headers)
    ensures var lines := SentLines(startLine, order, headers, n);
            LfFree(lines) && |lines| >= 2 && forall i | 1 <= i < |lines| :: lines[i] != ""
  {
    hide FieldLines, LengthLine, StartsWithIgnoreCase;
    FieldLinesShape(order, headers, n);
    LengthLineShape(n);
    var fields := FieldLines(order, headers, n);
    var lines := SentLines(startLine, order, headers, n);
    assert forall i | 1 <= i < |lines| :: lines[i] == fields[i - 1];
  }

  /** No line that is printed announces another size: the start line is rewritten, or decides with the
      right size, or holds no key and no header line hides a different one. */
  predicate AnnouncesSize(startLine: string, headers: HeaderMap, n: nat) {
    || IsLengthLine(startLine)
    || (if CarriesKey(startLine) then AnnouncedBy(startLine) == n
        else forall name | name in headers :: AnnouncesOnly(name, headers[name], n))
  }

  predicate AnnouncesOnly(name: string, value: string, n: nat) {
    Harmless(name, value) || AnnouncedBy(name + ": " + value) == n
  }

  lemma CleanAnnouncesSize(startLine: string, headers: HeaderMap, n: nat)
    requires Clean(startLine, headers)
    ensures AnnouncesSize(startLine, headers, n)
  {
    hide Harmless, CarriesKey, AnnouncedBy;
  }

  lemma SizeIsDeclared(startLine: string, order: seq<string>, headers: HeaderMap, n: nat)
    requires NoLf(startLine) && IsOrder(order, headers) && EntriesLfFree(headers)
    requires n < SIZE_T && AnnouncesSize(startLine, headers, n)
    ensures DeclaredLength(SentLines(startLine, order, headers, n)) == n
  {
    hide CarriesKey, AnnouncedBy, LengthLine, StartsWithIgnoreCase;
    var lines := SentLines(startLine, order, headers, n);
    LengthLineAnnounces(n);
    if !IsLengthLine(startLine) && !CarriesKey(startLine) {
      forall i | 0 <= i < |lines| && CarriesKey(lines[i]) ensures AnnouncedBy(lines[i]) == n {
        if 1 <= i <= |order| && !IsLengthName(order[i - 1]) {
          assert lines[i] == order[i - 1] + ": " + headers[order[i - 1]];
          assert AnnouncesOnly(order[i - 1], headers[order[i - 1]], n);
        }
      }
      LengthInOrder(order, headers);
      if HasLength(headers) {
        var i :| 0 <= i < |order| && IsLengthName(order[i]);
        assert lines[i + 1] == LengthLine(n);
      } else {
        assert lines[|lines| - 1] == LengthLine(n);
      }
      DeclaredByAll(lines, n);
    }
  }

  /** Self-framing of a printed message. */
  lemma PrintedIsSelfFramed(startLine: string, order: seq<string>, headers: HeaderMap, body: string)
    requires NoLf(startLine) && IsOrder(order, headers) && EntriesLfFree(headers)
    requires Clean(startLine, headers)
    requires |Printed(startLine, order, headers, body)| < SIZE_T
    ensures SelfFramed(Printed(startLine, order, headers, body))
  {
    hide SentLines, Joined, DeclaredLength, Clean, AnnouncesSize, SelfFramed;
    SentLinesShape(startLine, order, headers, |body|);
    CleanAnnouncesSize(startLine, headers, |body|);
    SizeIsDeclared(startLine, order, headers, |body|);
    FramedIffDeclared(SentLines(startLine, order, headers, |body|), body);
  }

  /** Every map has an order that starts with a name of our choice. */
  lemma OrderStarting(headers: HeaderMap, first: string) returns (order: seq<string>)
    requires first in headers
    ensures IsOrder(order, headers) && order[0] == first
  {
    order := [first];
    var left := headers.Keys - {first};
    while left != {}
      invariant left <= headers.Keys
      invariant order != [] && order[0] == first
      invariant forall i, j | 0 <= i < j < |order| :: order[i] != order[j]
      invariant forall i | 0 <= i < |order| :: order[i] in headers && order[i] !in left
      invariant forall name | name in headers :: name in left || name in order
      decreases left
    {
      var name :| name in left;
      var before := order;
      order := order + [name];
      assert order[|before|] == name;
      assert forall i | 0 <= i < |before| :: order[i] == before[i];
      left := left - {name};
    }
  }

  lemma SomeOrder(headers: HeaderMap) returns (order: seq<string>)
    ensures IsOrder(order, headers)
  {
    if headers.Keys == {} {
      order := [];
    } else {
      var first :| first in headers.Keys;
      order := OrderStarting(headers, first);
    }
  }

  /** An order that brings a line announcing another size to the front. */
  lemma OtherSizeFirst(startLine: string, headers: HeaderMap, n: nat) returns (order: seq<string>)
    requires NoLf(startLine) && EntriesLfFree(headers)
    requires !AnnouncesSize(startLine, headers, n)
    ensures IsOrder(order, headers)
    ensures DeclaredLength(SentLines(startLine, order, headers, n)) != n
  {
    hide CarriesKey, AnnouncedBy, LengthLine, StartsWithIgnoreCase, DeclaredLength;
    if CarriesKey(startLine) {
      order := SomeOrder(headers);
    } else {
      var name :| name in headers && !AnnouncesOnly(name, headers[name], n);
      order := OrderStarting(headers, name);
    }
    SentLinesShape(startLine, order, headers, n);
    var lines := SentLines(startLine, order, headers, n);
    assert lines[0] == startLine;
    assert |order| > 0 ==> lines[1..][0] == HeaderLine(order[0], headers[order[0]], n);
    DeclaredBySecond(lines);
  }

  /** Exactly when a message with this body frames itself whatever the visiting order: no line announces
      another size. */
  lemma FramedForEveryOrderIff(startLine: string, headers: HeaderMap, body: string)
    requires NoLf(startLine) && EntriesLfFree(headers)
    requires forall order | IsOrder(order, headers) :: |Printed(startLine, order, headers, body)| < SIZE_T
    ensures (forall order | IsOrder(order, headers) :: SelfFramed(Printed(startLine, order, headers, body)))
            <==> AnnouncesSize(startLine, headers, |body|)
  {
    hide AnnouncesSize, SentLines, Joined, SelfFramed, DeclaredLength;
    forall order | IsOrder(order, headers)
      ensures SelfFramed(Printed(startLine, order, headers, body)) <==>
                DeclaredLength(SentLines(startLine, order, headers, |body|)) == |body|
    {
      SentLinesShape(startLine, order, headers, |body|);
      FramedIffDeclared(SentLines(startLine, order, headers, |body|), body);
    }
    if AnnouncesSize(startLine, headers, |body|) {
      forall order | IsOrder(order, headers) ensures SelfFramed(Printed(startLine, order, headers, body)) {
        SizeIsDeclared(startLine, order, headers, |body|);
      }
    } else {
      var order := OtherSizeFirst(startLine, headers, |body|);
    }
  }

  lemma DeclaredBySecond(lines: seq<string>)
    requires |lines| >= 2
    ensures CarriesKey(lines[0]) ==> DeclaredLength(lines) == AnnouncedBy(lines[0])
    ensures !CarriesKey(lines[0]) && CarriesKey(lines[1]) ==> DeclaredLength(lines) == AnnouncedBy(lines[1])
  {
    hide CarriesKey, AnnouncedBy;
  }

  /** A key hidden in a line that is printed as it stands breaks the framing of some message. */
  lemma HiddenKeyBreaksFraming(startLine: string, headers: HeaderMap) returns (order: seq<string>, body: string)
    requires NoLf(startLine) && EntriesLfFree(headers)
    requires !Clean(startLine, headers)
    ensures IsOrder(order, headers) && |body| <= 1
    ensures !SelfFramed(Printed(startLine, order, headers, body))
  {
    hide CarriesKey, AnnouncedBy, SentLines, SelfFramed, Joined, DeclaredLength, IsLengthLine, IsLengthName;
    body := if AnnouncesSize(startLine, headers, 0) then "x" else "";
    assert !AnnouncesSize(startLine, headers, |body|) by {
      if AnnouncesSize(startLine, headers, 0) && !CarriesKey(startLine) {
        var name :| name in headers && !Harmless(name, headers[name]);
        assert AnnouncesOnly(name, headers[name], 0) && !AnnouncesOnly(name, headers[name], 1);
      }
    }
    order := OtherSizeFirst(startLine, headers, |body|);
    SentLinesShape(startLine, order, headers, |body|);
    FramedIffDeclared(SentLines(startLine, order, headers, |body|), body);
  }

  /** Exactly when printing always yields messages that frame themselves: for every visiting order and
      every body, if and only if the start line and headers are clean. */
  lemma SelfFramingIffClean(startLine: string, headers: HeaderMap)
    requires NoLf(startLine) && EntriesLfFree(headers)
    requires forall order, body | IsOrder(order, headers) && |body| <= 1 ::
               |Printed(startLine, order, headers, body)| < SIZE_T
    ensures (forall order, body | IsOrder(order, headers) && |Printed(startLine, order, headers, body)| < SIZE_T ::
              SelfFramed(Printed(startLine, order, headers, body)))
            <==> Clean(startLine, headers)
  {
    hide Clean, Printed, SelfFramed;
    if Clean(startLine, headers) {
      forall order, body | IsOrder(order, headers) && |Printed(startLine, order, headers, body)| < SIZE_T
        ensures SelfFramed(Printed(startLine, order, headers, body))
      {
        PrintedIsSelfFramed(startLine, order, headers, body);
      }
    } else {
      var order, body := HiddenKeyBreaksFraming(startLine, headers);
    }
  }

  const EXAMPLE_START: string := "GET / HTTP/1.1"
  const EXAMPLE_NAME: string := "X-Content-Length"
  const EXAMPLE_HEADERS: HeaderMap := map[EXAMPLE_NAME := "5"]

  const EXAMPLE_TEXT: string :=
    "GET / HTTP/1.1" + CRLF + "X-Content-Length: 5" + CRLF + "Content-Length: 0" + HEAD_END

  /** A concrete case: the value of an X-Content-Length header is taken for the length of a message
      without a body, so the buffer waits for five bytes that do not belong to it. */
  lemma HiddenKeyExample()
    ensures IsOrder([EXAMPLE_NAME], EXAMPLE_HEADERS)
    ensures Printed(EXAMPLE_START, [EXAMPLE_NAME], EXAMPLE_HEADERS, "") == EXAMPLE_TEXT
    ensures Take(EXAMPLE_TEXT).None?
  {
    hide Find, Take, Joined, Terminated, ContentLength, CarriesKey, AnnouncedBy, LengthLine, StartsWithIgnoreCase;
    var lines := SentLines(EXAMPLE_START, [EXAMPLE_NAME], EXAMPLE_HEADERS, 0);
    ExampleNames();
    ExampleLineAnnounces();
    assert lines == [EXAMPLE_START, EXAMPLE_NAME + ": " + "5", LengthLine(0)];
    SentLinesShape(EXAMPLE_START, [EXAMPLE_NAME], EXAMPLE_HEADERS, 0);
    DeclaredBySecond(lines);
    ExampleText();
    WaitsForDeclared(lines, "");
  }

  lemma ExampleText()
    ensures Joined([EXAMPLE_START, EXAMPLE_NAME + ": " + "5", LengthLine(0)]) + HEAD_END + "" == EXAMPLE_TEXT
  {
    var a, b, c := EXAMPLE_START, EXAMPLE_NAME + ": " + "5", LengthLine(0);
    assert LengthLine(0) == "Content-Length: 0";
    hide LengthLine;
    JoinedThree(a, b, c);
    assert b == "X-Content-Length: 5";
  }

  lemma JoinedThree(a: string, b: string, c: string)
    ensures Joined([a, b, c]) + HEAD_END + "" == a + CRLF + b + CRLF + c + HEAD_END
  {
    assert Joined([c]) == c;
    assert [b, c][1..] == [c] && [a, b, c][1..] == [b, c];
    assert Joined([a, b, c]) == a + CRLF + (b + CRLF + c);
    assert a + CRLF + (b + CRLF + c) + HEAD_END == a + CRLF + b + CRLF + c + HEAD_END;
  }

  lemma ExampleNames()
    ensures NoLf(EXAMPLE_START) && NoLf(EXAMPLE_NAME) && NoLf("5")
    ensures !IsLengthName(EXAMPLE_NAME) && !IsLengthLine(EXAMPLE_START) && !CarriesKey(EXAMPLE_START)
  {
    hide Find;
    assert ToLower(EXAMPLE_NAME[..14])[0] == 'x' && ToLower(LENGTH_NAME)[0] == 'c';
    assert 'c' !in ToLower(EXAMPLE_START);
    AbsentFirstChar(ToLower(EXAMPLE_START), LENGTH_KEY);
  }

  lemma ExampleLineAnnounces()
    ensures CarriesKey(EXAMPLE_NAME + ": " + "5") && AnnouncedBy(EXAMPLE_NAME + ": " + "5") == 5
  {
    hide Find, At, ToLower, ParseUnsigned;
    ExampleLowered();
    ExampleKeyFound();
    var lower := "x-" + LENGTH_KEY + " 5";
    assert lower[2 + |LENGTH_KEY|..] == " 5";
    assert " " + Decimal(5) == " 5";
    ParseDecimal(5, SIZE_T - 1);
  }

  lemma ExampleKeyFound()
    ensures Find("x-" + LENGTH_KEY + " 5", LENGTH_KEY, 0) == Some(2)
  {
    hide Find, At;
    var lower := "x-" + LENGTH_KEY + " 5";
    AtHere(lower, LENGTH_KEY, 2);
    forall j: nat | j < 2 ensures !At(lower, LENGTH_KEY, j) { FirstCharDiffers(lower, LENGTH_KEY, j); }
    FindIs(lower, LENGTH_KEY, 0, 2);
  }

  lemma ExampleLowered()
    ensures ToLower(EXAMPLE_NAME + ": " + "5") == "x-" + LENGTH_KEY + " 5"
  {
    hide ToLower;
    assert "X-" + "Content-Length:" + " 5" == EXAMPLE_NAME + ": " + "5";
    ToLowerConcat("X-" + "Content-Length:", " 5");
    ToLowerConcat("X-", "Content-Length:");
    LoweredKey();
    LoweredEnds();
  }

  lemma LoweredKey()
    ensures ToLower("Content-Length:") == LENGTH_KEY
  {
  }

  lemma LoweredEnds()
    ensures ToLower("X-") == "x-" && ToLower(" 5") == " 5"
  {
  }
}
