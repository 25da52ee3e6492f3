/** Guessing the protocol from the first bytes (src/protocol/protocol_detector.cpp). */
module ProtocolDetector {
  import opened Text

  datatype ProtocolKind = Unknown | Http | Https

  const HTTP_PREFIXES: seq<string> :=
    ["GET ", "POST ", "PUT ", "DELETE ", "PATCH ", "HEAD ", "OPTIONS ", "TRACE ", "CONNECT ", "HTTP/1.0 ", "HTTP/1.1 "]
  const HANDSHAKE: char := 0x16 as char
  const TLS_MAJOR: char := 0x03 as char

  predicate LooksHttp(payload: string) {
    exists i | 0 <= i < |HTTP_PREFIXES| :: HTTP_PREFIXES[i] <= payload
  }

  predicate LooksHttps(payload: string) {
    |payload| >= 3 && payload[0] == HANDSHAKE && payload[1] == TLS_MAJOR
  }

  function Detect(payload: string): ProtocolKind {
    if LooksHttp(payload) then Http
    else if LooksHttps(payload) then Https
    else Unknown
  }

  /** `detect_protocol_kind`. */
  method DetectProtocolKind(payload: string) returns (kind: ProtocolKind)
    ensures kind == Detect(payload)
  {
    if payload == "" {
      NothingIsUnknown();
      return Unknown;
    }
    var methods := ["GET ", "POST ", "PUT ", "DELETE ", "PATCH ", "HEAD ", "OPTIONS ", "TRACE ", "CONNECT "];
    assert methods == HTTP_PREFIXES[..9];
    for i := 0 to |methods|
      invariant forall j | 0 <= j < i :: !(methods[j] <= payload)
    {
      if methods[i] <= payload {
        assert HTTP_PREFIXES[i] <= payload;
        return Http;
      }
    }
    if "HTTP/1.0 " <= payload || "HTTP/1.1 " <= payload {
      assert HTTP_PREFIXES[9] <= payload || HTTP_PREFIXES[10] <= payload;
      return Http;
    }
    assert !LooksHttp(payload) by {
      forall i | 0 <= i < |HTTP_PREFIXES| ensures !(HTTP_PREFIXES[i] <= payload) {
        if i < 9 { assert methods[i] == HTTP_PREFIXES[i]; }
      }
    }
    if |payload| >= 3 && payload[0] as int == 0x16 && payload[1] as int == 0x03 {
      return Https;
    }
    return Unknown;
  }

  lemma NothingIsUnknown()
    ensures Detect("") == Unknown
  {
    forall i | 0 <= i < |HTTP_PREFIXES| ensures !(HTTP_PREFIXES[i] <= "") { PrefixesStartWithLetters(i); }
  }

  const WORDS: seq<string> :=
    ["GET", "POST", "PUT", "DELETE", "PATCH", "HEAD", "OPTIONS", "TRACE", "CONNECT", "HTTP/1.0", "HTTP/1.1"]

  /** What is recognised: a request method or an HTTP version, followed by a space, and a TLS handshake
      record once three bytes are there. */
  lemma DetectIff(payload: string)
    ensures Detect(payload) == Http <==> exists word | word in WORDS :: word + " " <= payload
    ensures Detect(payload) == Https <==> |payload| >= 3 && payload[0] as int == 22 && payload[1] as int == 3
  {
    PrefixesAreWords();
    hide HTTP_PREFIXES, WORDS;
    if LooksHttp(payload) {
      HttpIsNotHttps(payload);
      var i :| 0 <= i < |HTTP_PREFIXES| && HTTP_PREFIXES[i] <= payload;
      assert WORDS[i] in WORDS;
    }
    if word :| word in WORDS && word + " " <= payload {
      var i :| 0 <= i < |WORDS| && WORDS[i] == word;
      assert HTTP_PREFIXES[i] <= payload;
    }
  }

  lemma PrefixesAreWords()
    ensures |WORDS| == |HTTP_PREFIXES| && forall i | 0 <= i < |WORDS| :: HTTP_PREFIXES[i] == WORDS[i] + " "
  {
  }

  /** More bytes could still turn `payload` into something recognised. */
  predicate Pending(payload: string) {
    || (exists i | 0 <= i < |HTTP_PREFIXES| :: payload < HTTP_PREFIXES[i])
    || payload < [HANDSHAKE, TLS_MAJOR, HANDSHAKE]
  }

  lemma PrefixesStartWithLetters(i: nat)
    requires i < |HTTP_PREFIXES|
    ensures 4 <= |HTTP_PREFIXES[i]| <= 9 && 'A' <= HTTP_PREFIXES[i][0] <= 'Z'
  {
  }

  lemma PrefixOfExtension(p: string, x: string, y: string)
    requires p <= x + y
    ensures p <= x || x < p
    ensures |p| <= |x| ==> p <= x
  {
    if |p| <= |x| {
      assert p == (x + y)[..|p|] == x[..|p|];
    } else {
      assert x == (x + y)[..|x|] == p[..|x|];
    }
  }

  lemma HttpIsNotHttps(x: string)
    requires LooksHttp(x)
    ensures !LooksHttps(x)
  {
    hide HTTP_PREFIXES;
    var i :| 0 <= i < |HTTP_PREFIXES| && HTTP_PREFIXES[i] <= x;
    PrefixesStartWithLetters(i);
    assert x[0] == HTTP_PREFIXES[i][0];
  }

  /** A recognised protocol stays recognised, as the same one, when bytes are appended. */
  lemma DetectStable(x: string, y: string)
    requires Detect(x) != Unknown
    ensures Detect(x + y) == Detect(x)
  {
    hide HTTP_PREFIXES;
    if LooksHttp(x) {
      var i :| 0 <= i < |HTTP_PREFIXES| && HTTP_PREFIXES[i] <= x;
      assert HTTP_PREFIXES[i] <= x + y;
    } else {
      assert LooksHttps(x + y);
      if LooksHttp(x + y) { HttpIsNotHttps(x + y); }
    }
  }

  lemma UnknownStays(x: string, y: string)
    requires Detect(x) == Unknown && !Pending(x)
    ensures Detect(x + y) == Unknown
  {
    hide HTTP_PREFIXES;
    if LooksHttp(x + y) {
      var i :| 0 <= i < |HTTP_PREFIXES| && HTTP_PREFIXES[i] <= x + y;
      PrefixOfExtension(HTTP_PREFIXES[i], x, y);
    }
    assert LooksHttps(x + y) && |x| < 3 ==> x < [HANDSHAKE, TLS_MAJOR, HANDSHAKE];
  }

  /** Bytes that make a pending payload recognised. */
  lemma PendingCanBecomeKnown(x: string) returns (y: string)
    requires Detect(x) == Unknown && Pending(x)
    ensures Detect(x + y) != Unknown
  {
    hide HTTP_PREFIXES;
    if i :| 0 <= i < |HTTP_PREFIXES| && x < HTTP_PREFIXES[i] {
      y := HTTP_PREFIXES[i][|x|..];
      assert x + y == HTTP_PREFIXES[i];
      assert HTTP_PREFIXES[i] <= x + y;
    } else {
      var tls := [HANDSHAKE, TLS_MAJOR, HANDSHAKE];
      y := tls[|x|..];
      assert x + y == tls;
      assert LooksHttps(x + y);
    }
  }

  /** Exactly when the answer on the first bytes is the answer on every longer stream. */
  lemma SettledIff(x: string)
    ensures (forall y :: Detect(x + y) == Detect(x)) <==> Detect(x) != Unknown || !Pending(x)
  {
    hide Detect, Pending;
    if Detect(x) != Unknown {
      forall y ensures Detect(x + y) == Detect(x) { DetectStable(x, y); }
    } else if !Pending(x) {
      forall y ensures Detect(x + y) == Detect(x) { UnknownStays(x, y); }
    } else {
      var y := PendingCanBecomeKnown(x);
    }
  }

  /** Bytes that are not recognised do not become HTTP by appending "GET ". */
  lemma AppendedGetIsNotHttp(x: string)
    requires x != "" && Detect(x) == Unknown
    ensures Detect("GET ") == Http && Detect(x + "GET ") != Http
  {
    assert HTTP_PREFIXES[0] <= "GET ";
    forall i | 0 <= i < |HTTP_PREFIXES| ensures !(HTTP_PREFIXES[i] <= x + "GET ") {
      NoLaterG(i);
      hide HTTP_PREFIXES;
      var p := HTTP_PREFIXES[i];
      assert (x + "GET ")[|x|] == 'G';
      assert |x| < |p| ==> p[1..][|x| - 1] == p[|x|];
      if p <= x + "GET " { PrefixOfExtension(p, x, "GET "); }
    }
  }

  lemma NoLaterG(i: nat)
    requires i < |HTTP_PREFIXES|
    ensures 'G' !in HTTP_PREFIXES[i][1..]
  {
  }

  /** Nine bytes always settle it, so deciding at 32 bytes loses nothing. */
  lemma NineBytesSettle(x: string, y: string)
    requires |x| >= 9
    ensures Detect(x + y) == Detect(x)
  {
    hide HTTP_PREFIXES;
    if Detect(x) != Unknown {
      DetectStable(x, y);
    } else {
      forall i | 0 <= i < |HTTP_PREFIXES| ensures !(x < HTTP_PREFIXES[i]) {
        PrefixesStartWithLetters(i);
      }
      UnknownStays(x, y);
    }
  }
}
