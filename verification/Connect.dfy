/** Reading the target of a CONNECT request (src/transport/tcp_proxy_server.cpp), in the
    authority-form of section 3.2.3 of RFC 9112. */
module Connect {
  import opened Text

  const DEFAULT_PORT: nat := 443
  const PREFIX: string := "CONNECT "

  datatype Authority = Authority(host: string, port: nat)

  /** `rfind`: the last occurrence of `c`. */
  function FindLast(s: string, c: char): (r: Option<nat>)
    ensures r.Some? ==> r.value < |s|
  {
    if s == "" then None
    else if s[|s| - 1] == c then Some(|s| - 1)
    else FindLast(s[..|s| - 1], c)
  }

  function ParseAuthority(authority: string): Option<Authority> {
    match FindLast(authority, ':')
    case None => Some(Authority(authority, DEFAULT_PORT))
    case Some(colon) =>
      if colon == 0 then None
      else
        match ParseUnsigned(authority[colon + 1..], ULONG_MAX)
        case None => None
        case Some(port) => Some(Authority(authority[..colon], port % 0x1_0000))
  }

  /** `parse_connect_authority`. */
  function ParseConnect(request: string): Option<Authority> {
    match Find(request, CRLF, 0)
    case None => None
    case Some(end) =>
      var line := request[..end];
      if !StartsWithIgnoreCase(line, PREFIX) then None
      else
        match Find(line, " ", |PREFIX|)
        case None => None
        case Some(target) =>
          if target <= |PREFIX| then None else ParseAuthority(line[|PREFIX|..target])
  }

  lemma FindLastIs(s: string, c: char, i: nat)
    requires i < |s| && s[i] == c && forall j | i < j < |s| :: s[j] != c
    ensures FindLast(s, c) == Some(i)
  {
    if i < |s| - 1 {
      FindLastIs(s[..|s| - 1], c, i);
    }
  }

  lemma FindLastNone(s: string, c: char)
    requires c !in s
    ensures FindLast(s, c) == None
  {
    if s != "" {
      assert s[|s| - 1] in s;
      FindLastNone(s[..|s| - 1], c);
    }
  }

  /** A host and a printed number are read back, even when the host itself holds colons: a number that
      does not fit `unsigned long` is rejected, any other is cut down to sixteen bits. */
  lemma AuthorityRoundTrip(host: string, port: nat)
    requires host != ""
    ensures ParseAuthority(host + ":" + Decimal(port)) ==
            if port <= 4294967295 then Some(Authority(host, port % 65536)) else None
  {
    hide Decimal, ParseUnsigned;
    var digits := Decimal(port);
    var s := host + ":" + digits;
    assert s[|host|] == ':';
    forall j | |host| < j < |s| ensures s[j] != ':' {
      assert s[j] == digits[j - |host| - 1];
    }
    FindLastIs(s, ':', |host|);
    if port <= ULONG_MAX { ParseDecimal(port, ULONG_MAX); } else { ParseDecimalTooLarge(port, ULONG_MAX); }
    assert s[|host| + 1..] == digits && s[..|host|] == host;
  }

  /** The port as it may be written behind the last colon: blanks, a sign, digits, and text that is
      ignored. An empty host is refused. */
  lemma SpelledAuthority(host: string, pad: string, sign: string, digits: string, rest: string)
    requires Spelling(pad, sign, digits, rest) && AllDigits(digits) && ':' !in rest
    ensures var v := DecimalValue(digits);
            ParseAuthority(host + ":" + (pad + (sign + (digits + rest)))) ==
              if host == "" || digits == "" || v > 4294967295 then None
              else if sign == "-" && v > 0 then Some(Authority(host, (4294967296 - v) % 65536))
              else Some(Authority(host, v % 65536))
  {
    hide ParseUnsigned, DecimalValue;
    var number := pad + (sign + (digits + rest));
    var s := host + ":" + number;
    assert ':' !in number;
    assert s[|host|] == ':';
    forall j | |host| < j < |s| ensures s[j] != ':' { assert s[j] == number[j - |host| - 1]; }
    FindLastIs(s, ':', |host|);
    assert s[|host| + 1..] == number && s[..|host|] == host;
    ParseSpelled(pad, sign, digits, rest, ULONG_MAX);
  }

  lemma NoColonMeansDefaultPort(host: string)
    requires ':' !in host
    ensures ParseAuthority(host) == Some(Authority(host, DEFAULT_PORT))
  {
    FindLastNone(host, ':');
  }

  /** The whole request: the first line of a CONNECT request gives its target to the parser, whatever
      protocol version and headers follow. */
  lemma TargetIsFound(method': string, authority: string, version: string, rest: string)
    requires StartsWithIgnoreCase(method', PREFIX) && |method'| == |PREFIX|
    requires NoLf(method') && authority != "" && ' ' !in authority && NoLf(authority) && NoLf(version)
    ensures ParseConnect(method' + authority + " " + version + CRLF + rest) == ParseAuthority(authority)
  {
    hide Find, At, ParseAuthority;
    var line := method' + authority + " " + version;
    var request := line + CRLF + rest;
    assert request == method' + authority + " " + version + CRLF + rest;
    LineEnd(line, rest);
    assert request[..|line|] == line;
    assert line[..|PREFIX|] == method' && method'[..|PREFIX|] == method';
    var target := |PREFIX| + |authority|;
    AtChar(line, ' ', target);
    forall j: nat | |PREFIX| <= j < target ensures !At(line, " ", j) {
      assert line[j] == authority[j - |PREFIX|];
      AtChar(line, ' ', j);
    }
    FindIs(line, " ", |PREFIX|, target);
    assert line[|PREFIX|..target] == authority;
  }

  lemma LineEnd(line: string, rest: string)
    requires NoLf(line)
    ensures Find(line + CRLF + rest, CRLF, 0) == Some(|line|)
  {
    hide Find;
    var text := line + CRLF + rest;
    assert text[|line|..|line| + 2] == CRLF;
    forall j: nat | j < |line| ensures !At(text, CRLF, j) {
      if j + 1 < |line| { assert text[j + 1] == line[j + 1]; }
      assert text[j + 1] != '\n';
      if At(text, CRLF, j) { AtByte(text, CRLF, j, 1); }
    }
    FindIs(text, CRLF, 0, |line|);
  }

  /** CONNECT round trip. */
  lemma ConnectRoundTrip(host: string, port: nat, version: string, rest: string)
    requires host != "" && ' ' !in host && NoLf(host) && port < 0x1_0000 && NoLf(version)
    ensures ParseConnect("CONNECT " + (host + ":" + Decimal(port)) + " " + version + CRLF + rest)
         == Some(Authority(host, port))
    ensures ':' !in host ==>
              ParseConnect("CONNECT " + host + " " + version + CRLF + rest) == Some(Authority(host, 443))
  {
    hide ParseConnect, ParseAuthority, Decimal;
    assert PREFIX[..|PREFIX|] == PREFIX;
    var digits := Decimal(port);
    var authority := host + ":" + digits;
    forall i | 0 <= i < |authority| ensures authority[i] != ' ' && authority[i] != '\n' {
      if i > |host| { assert authority[i] == digits[i - |host| - 1]; }
      else if i < |host| { assert authority[i] == host[i]; }
    }
    TargetIsFound("CONNECT ", authority, version, rest);
    AuthorityRoundTrip(host, port);
    TargetIsFound("CONNECT ", host, version, rest);
    if ':' !in host { NoColonMeansDefaultPort(host); }
  }

  /** Requests that are refused: no line end, another method, or no target between two spaces. */
  lemma RefusedRequests(request: string)
    ensures Find(request, CRLF, 0).None? ==> ParseConnect(request) == None
    ensures !StartsWithIgnoreCase(request, "CONNECT ") ==> ParseConnect(request) == None
    ensures "CONNECT  " <= request ==> ParseConnect(request) == None
  {
    hide Find, ParseAuthority, StartsWithIgnoreCase;
    if Find(request, CRLF, 0).Some? {
      var line := request[..Find(request, CRLF, 0).value];
      if StartsWithIgnoreCase(line, "CONNECT ") { SameStart(request, |line|); }
      if "CONNECT  " <= request && |line| >= 9 {
        assert line[..9] == request[..9];
        AtChar(line, ' ', 8);
        FindIs(line, " ", 8, 8);
      } else {
        FindLeftmost(line, " ", 8);
        if Find(line, " ", 8).Some? { AtSlice(line, " ", Find(line, " ", 8).value); }
      }
    }
  }

  lemma SameStart(request: string, end: nat)
    requires end <= |request| && StartsWithIgnoreCase(request[..end], "CONNECT ")
    ensures StartsWithIgnoreCase(request, "CONNECT ")
  {
    assert request[..end][..8] == request[..8];
  }

  /** Soundness on arbitrary requests: an answer comes from a first line that is the method in some case,
      an authority without spaces, a space and a rest. */
  lemma ParsedConnectShape(request: string) returns (word: string, authority: string, version: string, rest: string)
    requires ParseConnect(request).Some?
    ensures request == word + authority + " " + version + CRLF + rest
    ensures ToLower(word) == "connect " && authority != "" && ' ' !in authority
    ensures AbsentIn(request, CRLF, 0, |word + authority + " " + version|)
    ensures ParseAuthority(authority) == ParseConnect(request)
  {
    hide Find, At, ParseAuthority, ToLower;
    var end := Find(request, CRLF, 0).value;
    FindLeftmost(request, CRLF, 0);
    AtSlice(request, CRLF, end);
    var line := request[..end];
    var target := Find(line, " ", |PREFIX|).value;
    FindLeftmost(line, " ", |PREFIX|);
    AtChar(line, ' ', target);
    word, authority, version, rest := line[..|PREFIX|], line[|PREFIX|..target], line[target + 1..], request[end + 2..];
    forall k: nat | k < target - |PREFIX| ensures authority[k] != ' ' { AtChar(line, ' ', |PREFIX| + k); }
    assert line == word + authority + " " + version;
    assert request == line + CRLF + rest;
  }

  /** An accepted authority is a host alone, or a non-empty host, its last colon and a readable number. */
  lemma ParsedAuthorityShape(authority: string)
    requires ParseAuthority(authority).Some?
    ensures var a := ParseAuthority(authority).value;
            || (a == Authority(authority, 443) && ':' !in authority)
            || (a.host != "" && |a.host| < |authority| && authority[..|a.host| + 1] == a.host + ":"
                && ':' !in authority[|a.host| + 1..] && ParseUnsigned(authority[|a.host| + 1..], ULONG_MAX).Some?
                && a.port == ParseUnsigned(authority[|a.host| + 1..], ULONG_MAX).value % 0x1_0000)
  {
    hide ParseUnsigned;
    FindLastIsLast(authority, ':');
  }

  lemma FindLastIsLast(s: string, c: char)
    ensures match FindLast(s, c) case None => c !in s case Some(i) => s[i] == c && c !in s[i + 1..]
  {
    if s != "" && s[|s| - 1] != c {
      FindLastIsLast(s[..|s| - 1], c);
      assert s == s[..|s| - 1] + [s[|s| - 1]];
      match FindLast(s, c)
      case None =>
      case Some(i) => assert s[i + 1..] == s[..|s| - 1][i + 1..] + [s[|s| - 1]];
    }
  }
}
