/** Finding the server name in a TLS ClientHello (src/tls/https_mitm_proxy.cpp), against the formats
    of section 4.1.2 of RFC 8446 and section 3 of RFC 6066. */
module ClientHello {
  import opened Text
  import opened Octets

  function U24(d: seq<Byte>, i: nat): nat
    requires i + 3 <= |d|
  {
    65536 * d[i] as int + 256 * d[i + 1] as int + d[i + 2] as int
  }

  // ---------- the parser ----------

  /** Where the extensions begin and where the clamped block ends. */
  datatype Block = Block(begin: nat, end: nat)

  function ExtensionBlock(d: seq<Byte>): (r: Option<Block>)
    ensures r.Some? ==> r.value.begin <= r.value.end <= |d|
  {
    if |d| < 9 || d[0] != 0x16 || d[1] != 0x03 || d[5] != 0x01 then None
    else if 9 + U24(d, 6) > |d| || 44 > |d| then None
    else
      var ciphers := 44 + d[43] as int;
      if ciphers + 2 > |d| then None
      else
        var compression := ciphers + 2 + U16(d, ciphers);
        if compression + 1 > |d| then None
        else
          var extensions := compression + 1 + d[compression] as int;
          if extensions + 2 > |d| then None
          else Some(Block(extensions + 2, Min(extensions + 2 + U16(d, extensions), |d|)))
  }

  /** What a walk over a name list decides: an answer, or to go on with the next extension. */
  datatype Names = Answer(name: Option<seq<Byte>>) | GoOn

  function NonEmpty(name: seq<Byte>): Option<seq<Byte>> {
    if name == [] then None else Some(name)
  }

  function WalkNames(d: seq<Byte>, offset: nat, end: nat): Names
    requires end <= |d|
    decreases end - offset
  {
    if offset + 3 > end then GoOn
    else
      var length := U16(d, offset + 1);
      if offset + 3 + length > end then Answer(None)
      else if d[offset] == 0 then Answer(NonEmpty(d[offset + 3..offset + 3 + length]))
      else WalkNames(d, offset + 3 + length, end)
  }

  function WalkExtensions(d: seq<Byte>, offset: nat, end: nat): Option<seq<Byte>>
    requires end <= |d|
    decreases end - offset
  {
    if offset + 4 > end then None
    else
      var body, length := offset + 4, U16(d, offset + 2);
      if body + length > end then None
      else if U16(d, offset) != 0 then WalkExtensions(d, body + length, end)
      else if body + 2 > end then None
      else
        match WalkNames(d, body + 2, Min(body + 2 + U16(d, body), body + length))
        case Answer(name) => name
        case GoOn => WalkExtensions(d, body + length, end)
  }

  function ExtractSni(d: seq<Byte>): Option<seq<Byte>> {
    match ExtensionBlock(d)
    case None => None
    case Some(block) => WalkExtensions(d, block.begin, block.end)
  }

  /** The straight-line part: record and handshake headers, session id, ciphers, compression. */
  method FindExtensions(d: seq<Byte>) returns (found: bool, offset: nat, end: nat)
    ensures found <==> ExtensionBlock(d).Some?
    ensures found ==> ExtensionBlock(d) == Some(Block(offset, end))
  {
    found, offset, end := false, 0, 0;
    if |d| < 5 {
      return;
    }
    if d[0] != 0x16 || d[1] != 0x03 {
      return;
    }
    if |d| < 9 || d[5] != 0x01 {
      return;
    }
    offset := 5;
    var handshakeLength := U24(d, offset + 1);
    offset := offset + 4;
    if offset + handshakeLength > |d| || offset + 34 > |d| {
      return;
    }
    offset := offset + 34;
    if offset + 1 > |d| {
      return;
    }
    offset := offset + 1 + d[offset] as int;
    if offset + 2 > |d| {
      return;
    }
    offset := offset + 2 + U16(d, offset);
    if offset + 1 > |d| {
      return;
    }
    offset := offset + 1 + d[offset] as int;
    if offset + 2 > |d| {
      return;
    }
    var extensionsLength := U16(d, offset);
    offset := offset + 2;
    end := if offset + extensionsLength < |d| then offset + extensionsLength else |d|;
    found := true;
  }

  /** The inner loop. */
  method ReadNames(d: seq<Byte>, begin: nat, end: nat) returns (answered: bool, serverName: seq<Byte>)
    requires end <= |d|
    ensures answered <==> WalkNames(d, begin, end).Answer?
    ensures answered ==> WalkNames(d, begin, end).name == NonEmpty(serverName)
    ensures !answered ==> serverName == []
  {
    var sniOffset := begin;
    while sniOffset + 3 <= end
      invariant WalkNames(d, begin, end) == WalkNames(d, sniOffset, end)
      decreases end - sniOffset
    {
      var nameType, nameLength := d[sniOffset], U16(d, sniOffset + 1);
      sniOffset := sniOffset + 3;
      if sniOffset + nameLength > end {
        return true, [];
      }
      if nameType == 0 {
        return true, d[sniOffset..sniOffset + nameLength];
      }
      sniOffset := sniOffset + nameLength;
    }
    return false, [];
  }

  /** `try_extract_sni_from_client_hello`. Every index it reads lies inside the input, and both loops
      move forward, on arbitrary bytes. */
  method TryExtractSni(d: seq<Byte>) returns (ok: bool, serverName: seq<Byte>)
    ensures ok <==> ExtractSni(d).Some?
    ensures ok ==> ExtractSni(d) == Some(serverName)
    ensures !ok ==> serverName == []
  {
    hide ExtensionBlock, WalkNames, U16;
    serverName := [];
    var found, offset, extensionsEnd := FindExtensions(d);
    if !found {
      return false, [];
    }
    while offset + 4 <= extensionsEnd
      invariant extensionsEnd <= |d|
      invariant ExtractSni(d) == WalkExtensions(d, offset, extensionsEnd)
      decreases extensionsEnd - offset
    {
      var extensionType, extensionLength := U16(d, offset), U16(d, offset + 2);
      offset := offset + 4;
      if offset + extensionLength > extensionsEnd {
        return false, [];
      }
      if extensionType == 0 {
        if offset + 2 > extensionsEnd {
          return false, [];
        }
        var listEnd := offset + 2 + U16(d, offset);
        var extensionEnd := offset + extensionLength;
        var answered, name := ReadNames(d, offset + 2, if listEnd < extensionEnd then listEnd else extensionEnd);
        if answered {
          return name != [], name;
        }
      }
      offset := offset + extensionLength;
    }
    ok := false;
  }

  // ---------- soundness on arbitrary bytes ----------

  /** `entry` is a name entry of the list that begins at `from`; the entries before it have other types. */
  ghost predicate NameAt(d: seq<Byte>, from: nat, entry: nat, end: nat)
    requires end <= |d|
    decreases end - from
  {
    || from == entry
    || (from + 3 <= end && d[from] != 0 && from + 3 + U16(d, from + 1) <= end
        && NameAt(d, from + 3 + U16(d, from + 1), entry, end))
  }

  /** `extension` is one of the extensions that follow each other from `from`. */
  ghost predicate ExtensionAt(d: seq<Byte>, from: nat, extension: nat, end: nat)
    requires end <= |d|
    decreases end - from
  {
    || from == extension
    || (from + 4 <= end && from + 4 + U16(d, from + 2) <= end
        && ExtensionAt(d, from + 4 + U16(d, from + 2), extension, end))
  }

  /** `name` is the first host_name of the server_name extension at `extension`, at `entry`. */
  ghost predicate HostNameIn(d: seq<Byte>, extension: nat, entry: nat, end: nat, name: seq<Byte>)
    requires end <= |d|
  {
    && extension + 6 <= entry && extension + 4 + U16At(d, extension + 2) <= end
    && U16At(d, extension) == 0
    && entry + 3 + |name| <= extension + 4 + U16At(d, extension + 2)
    && NameAt(d, extension + 6, entry, end)
    && d[entry] == 0 && U16(d, entry + 1) == |name| && d[entry + 3..entry + 3 + |name|] == name
  }

  ghost function U16At(d: seq<Byte>, i: nat): nat {
    if i + 2 <= |d| then U16(d, i) else 0
  }

  lemma {:induction false} NamesAreSound(d: seq<Byte>, offset: nat, end: nat, limit: nat) returns (entry: nat)
    requires end <= limit <= |d| && WalkNames(d, offset, end).Answer? && WalkNames(d, offset, end).name.Some?
    ensures var name := WalkNames(d, offset, end).name.value;
            name != [] && offset <= entry && entry + 3 + |name| <= end && NameAt(d, offset, entry, limit)
            && d[entry] == 0 && U16(d, entry + 1) == |name| && d[entry + 3..entry + 3 + |name|] == name
    decreases end - offset
  {
    if d[offset] == 0 {
      entry := offset;
    } else {
      entry := NamesAreSound(d, offset + 3 + U16(d, offset + 1), end, limit);
    }
  }

  lemma {:induction false} ExtensionsAreSound(d: seq<Byte>, offset: nat, end: nat) returns (extension: nat, entry: nat)
    requires end <= |d| && WalkExtensions(d, offset, end).Some?
    ensures var name := WalkExtensions(d, offset, end).value;
            name != [] && ExtensionAt(d, offset, extension, end) && HostNameIn(d, extension, entry, end, name)
    decreases end - offset
  {
    var body, length := offset + 4, U16(d, offset + 2);
    if U16(d, offset) == 0 {
      var namesEnd := Min(body + 2 + U16(d, body), body + length);
      if WalkNames(d, body + 2, namesEnd).Answer? {
        entry := NamesAreSound(d, body + 2, namesEnd, end);
        extension := offset;
        return;
      }
    }
    extension, entry := ExtensionsAreSound(d, body + length, end);
  }

  /** A name that is extracted is a non-empty slice of the input: the first host_name of a server_name
      extension that lies on the chain of extensions, preceded by its type and its own length. */
  lemma ExtractedNameIsSound(d: seq<Byte>) returns (extension: nat, entry: nat)
    requires ExtractSni(d).Some?
    ensures ExtensionBlock(d).Some?
    ensures var block, name := ExtensionBlock(d).value, ExtractSni(d).value;
            name != [] && ExtensionAt(d, block.begin, extension, block.end)
            && HostNameIn(d, extension, entry, block.end, name)
  {
    hide ExtensionBlock, WalkExtensions, HostNameIn, ExtensionAt;
    var block := ExtensionBlock(d).value;
    extension, entry := ExtensionsAreSound(d, block.begin, block.end);
  }

  // ---------- the serializer ----------

  /** An entry of a ServerNameList. */
  datatype ServerName = ServerName(nameType: Byte, name: seq<Byte>)

  datatype Extension = ServerNameList(names: seq<ServerName>) | Other(extensionType: nat, data: seq<Byte>)

  /** `versionAndRandom` are the 34 bytes before the session id; the record length is not checked by
      the parser and may be any two bytes. */
  datatype Hello = Hello(
    recordMinor: Byte, recordLength: seq<Byte>, versionAndRandom: seq<Byte>, sessionId: seq<Byte>,
    cipherSuites: seq<Byte>, compressionMethods: seq<Byte>, extensions: seq<Extension>)

  function Put24(n: nat): seq<Byte> {
    [n / 65536 % 256, n / 256 % 256, n % 256]
  }

  function NameBytes(n: ServerName): seq<Byte> {
    [n.nameType] + Put16(|n.name|) + n.name
  }

  function NamesBytes(names: seq<ServerName>): seq<Byte> {
    if names == [] then [] else NameBytes(names[0]) + NamesBytes(names[1..])
  }

  function ExtensionType(e: Extension): nat {
    if e.ServerNameList? then 0 else e.extensionType
  }

  function ExtensionBody(e: Extension): seq<Byte> {
    if e.ServerNameList? then Put16(|NamesBytes(e.names)|) + NamesBytes(e.names) else e.data
  }

  function ExtensionBytes(e: Extension): seq<Byte> {
    Put16(ExtensionType(e)) + Put16(|ExtensionBody(e)|) + ExtensionBody(e)
  }

  function ExtensionsBytes(extensions: seq<Extension>): seq<Byte> {
    if extensions == [] then [] else ExtensionBytes(extensions[0]) + ExtensionsBytes(extensions[1..])
  }

  function HelloBody(h: Hello): seq<Byte> {
    h.versionAndRandom + ([|h.sessionId| % 256] + h.sessionId)
    + (Put16(|h.cipherSuites|) + h.cipherSuites)
    + ([|h.compressionMethods| % 256] + h.compressionMethods)
    + (Put16(|ExtensionsBytes(h.extensions)|) + ExtensionsBytes(h.extensions))
  }

  /** Record header, handshake header, ClientHello. */
  function Serialize(h: Hello): seq<Byte> {
    [0x16, 0x03, h.recordMinor] + h.recordLength + [0x01] + Put24(|HelloBody(h)|) + HelloBody(h)
  }

  predicate WellFormedExtension(e: Extension) {
    && |ExtensionBody(e)| < 0x1_0000
    && (e.ServerNameList? ==> forall i | 0 <= i < |e.names| :: |e.names[i].name| < 0x1_0000)
    && (e.Other? ==> 0 < e.extensionType < 0x1_0000)
  }

  predicate WellFormed(h: Hello) {
    && |h.recordLength| == 2 && |h.versionAndRandom| == 34
    && |h.sessionId| < 0x100 && |h.cipherSuites| < 0x1_0000 && |h.compressionMethods| < 0x100
    && |ExtensionsBytes(h.extensions)| < 0x1_0000
    && forall i | 0 <= i < |h.extensions| :: WellFormedExtension(h.extensions[i])
  }

  // ---------- the round trip ----------

  /** The first entry of type host_name. */
  function HostName(names: seq<ServerName>): Option<seq<Byte>> {
    if names == [] then None
    else if names[0].nameType == 0 then Some(names[0].name)
    else HostName(names[1..])
  }

  /** The first host_name of the first server_name extension that has one. */
  function FirstHostName(extensions: seq<Extension>): Option<seq<Byte>> {
    if extensions == [] then None
    else if extensions[0].ServerNameList? && HostName(extensions[0].names).Some? then HostName(extensions[0].names)
    else FirstHostName(extensions[1..])
  }

  lemma Read24(a: seq<Byte>, n: nat, b: seq<Byte>)
    requires n < 0x100_0000
    ensures U24(a + Put24(n) + b, |a|) == n
  {
    var d := a + Put24(n) + b;
    assert d[|a|] == Put24(n)[0] && d[|a| + 1] == Put24(n)[1] && d[|a| + 2] == Put24(n)[2];
  }

  lemma NameReadBack(a: seq<Byte>, n: ServerName, b: seq<Byte>)
    requires |n.name| < 0x1_0000
    ensures var d := a + NameBytes(n) + b;
            |NameBytes(n)| == 3 + |n.name| && d[|a|] == n.nameType && U16(d, |a| + 1) == |n.name|
            && d[|a| + 3..|a| + 3 + |n.name|] == n.name
  {
    hide U16, Put16;
    PutWidth(|n.name|);
    var d := a + NameBytes(n) + b;
    ReadPut(a + [n.nameType], |n.name|, n.name + b);
    assert d == a + [n.nameType] + Put16(|n.name|) + (n.name + b);
  }

  lemma {:induction false} NamesReadBack(a: seq<Byte>, names: seq<ServerName>, b: seq<Byte>)
    requires forall i | 0 <= i < |names| :: |names[i].name| < 0x1_0000
    ensures WalkNames(a + NamesBytes(names) + b, |a|, |a + NamesBytes(names)|) ==
            match HostName(names) case None => GoOn case Some(name) => Answer(NonEmpty(name))
    decreases |names|
  {
    hide U16, NameBytes, NonEmpty, NamesBytes;
    FirstName(a, names, b);
    if names != [] {
      NameReadBack(a, names[0], NamesBytes(names[1..]) + b);
      NamesReadBack(a + NameBytes(names[0]), names[1..], b);
    }
  }

  lemma FirstName(a: seq<Byte>, names: seq<ServerName>, b: seq<Byte>)
    ensures names == [] ==> NamesBytes(names) == []
    ensures names != [] ==>
              var n, rest := names[0], NamesBytes(names[1..]);
              a + NamesBytes(names) == a + NameBytes(n) + rest
              && a + NamesBytes(names) + b == a + NameBytes(n) + (rest + b)
  {
    hide NameBytes;
    if names != [] { Regroup(a, NameBytes(names[0]), NamesBytes(names[1..]), b); }
  }

  lemma Regroup(a: seq<Byte>, x: seq<Byte>, y: seq<Byte>, b: seq<Byte>)
    ensures a + (x + y) == a + x + y && a + (x + y) + b == a + x + (y + b)
  {
  }

  lemma PutWidth(n: nat)
    ensures |Put16(n)| == 2 && |Put24(n)| == 3
  {
  }

  lemma ExtensionReadBack(a: seq<Byte>, e: Extension, b: seq<Byte>)
    requires WellFormedExtension(e)
    ensures var d := a + ExtensionBytes(e) + b;
            |ExtensionBytes(e)| == 4 + |ExtensionBody(e)|
            && U16(d, |a|) == ExtensionType(e) && U16(d, |a| + 2) == |ExtensionBody(e)|
  {
    hide U16, Put16, ExtensionBody;
    var body := ExtensionBody(e);
    PutWidth(ExtensionType(e));
    PutWidth(|body|);
    var d := a + ExtensionBytes(e) + b;
    assert d == a + Put16(ExtensionType(e)) + (Put16(|body|) + body + b);
    ReadPut(a, ExtensionType(e), Put16(|body|) + body + b);
    assert d == (a + Put16(ExtensionType(e))) + Put16(|body|) + (body + b);
    ReadPut(a + Put16(ExtensionType(e)), |body|, body + b);
  }

  lemma {:induction false} ExtensionsReadBack(a: seq<Byte>, extensions: seq<Extension>, b: seq<Byte>)
    requires forall i | 0 <= i < |extensions| :: WellFormedExtension(extensions[i])
    ensures WalkExtensions(a + ExtensionsBytes(extensions) + b, |a|, |a + ExtensionsBytes(extensions)|) ==
            match FirstHostName(extensions) case None => None case Some(name) => NonEmpty(name)
    decreases |extensions|
  {
    hide U16, WalkNames, HostName, ExtensionBytes, ExtensionBody, NonEmpty;
    if extensions != [] {
      var e, rest := extensions[0], ExtensionsBytes(extensions[1..]);
      var d := a + ExtensionsBytes(extensions) + b;
      assert d == a + ExtensionBytes(e) + (rest + b) && d == (a + ExtensionBytes(e)) + rest + b;
      assert WellFormedExtension(e);
      ExtensionReadBack(a, e, rest + b);
      ExtensionsReadBack(a + ExtensionBytes(e), extensions[1..], b);
      if e.ServerNameList? {
        ServerNamesReadBack(a, e.names, rest + b);
      }
    }
  }

  lemma ServerNamesReadBack(a: seq<Byte>, names: seq<ServerName>, b: seq<Byte>)
    requires WellFormedExtension(ServerNameList(names))
    ensures var e := ServerNameList(names);
            var d := a + ExtensionBytes(e) + b;
            var body := |a| + 4;
            |ExtensionBytes(e)| == 4 + |ExtensionBody(e)| && |ExtensionBody(e)| >= 2
            && body + 2 + U16(d, body) == body + |ExtensionBody(e)|
            && WalkNames(d, body + 2, body + |ExtensionBody(e)|) ==
               match HostName(names) case None => GoOn case Some(name) => Answer(NonEmpty(name))
  {
    hide U16, Put16, WalkNames, HostName, NamesBytes;
    var list := NamesBytes(names);
    var e := ServerNameList(names);
    var d := a + ExtensionBytes(e) + b;
    PutWidth(0);
    PutWidth(|list|);
    PutWidth(|ExtensionBody(e)|);
    var head := a + Put16(0) + Put16(|ExtensionBody(e)|);
    assert d == head + Put16(|list|) + (list + b);
    ReadPut(head, |list|, list + b);
    assert d == (head + Put16(|list|)) + list + b;
    NamesReadBack(head + Put16(|list|), names, b);
  }

  /** The extension block of a serialized hello is found, whatever bytes follow the hello. */
  lemma BlockReadBack(h: Hello, tail: seq<Byte>) returns (a: seq<Byte>)
    requires WellFormed(h)
    ensures Serialize(h) + tail == a + ExtensionsBytes(h.extensions) + tail
    ensures ExtensionBlock(Serialize(h) + tail) == Some(Block(|a|, |a| + |ExtensionsBytes(h.extensions)|))
  {
    hide U16, U24, Put16, Put24, ExtensionsBytes, HelloBody;
    var extensions := ExtensionsBytes(h.extensions);
    var fixed := HeadReadBack(h, tail);
    var variable := ([|h.sessionId| % 256] + h.sessionId) + (Put16(|h.cipherSuites|) + h.cipherSuites)
      + ([|h.compressionMethods| % 256] + h.compressionMethods);
    a := fixed + variable + Put16(|extensions|);
    VariableReadBack(fixed, h.sessionId, h.cipherSuites, h.compressionMethods, extensions, tail);
    assert Serialize(h) + tail == a + extensions + tail;
  }

  /** The headers and the 34 fixed bytes. */
  lemma HeadReadBack(h: Hello, tail: seq<Byte>) returns (fixed: seq<Byte>)
    requires WellFormed(h)
    ensures |fixed| == 43
    ensures Serialize(h) + tail == fixed + (([|h.sessionId| % 256] + h.sessionId)
              + (Put16(|h.cipherSuites|) + h.cipherSuites) + ([|h.compressionMethods| % 256] + h.compressionMethods)
              + (Put16(|ExtensionsBytes(h.extensions)|) + ExtensionsBytes(h.extensions))) + tail
    ensures var d := Serialize(h) + tail;
            |d| >= 44 && d[0] == 0x16 && d[1] == 0x03 && d[5] == 0x01 && 9 + U24(d, 6) <= |d|
  {
    hide U24, Put16, Put24, ExtensionsBytes;
    var body := HelloBody(h);
    PutWidth(|body|);
    PutWidth(|h.cipherSuites|);
    PutWidth(|ExtensionsBytes(h.extensions)|);
    var head := [0x16, 0x03, h.recordMinor] + h.recordLength + [0x01];
    Read24(head, |body|, body + tail);
    assert Serialize(h) + tail == head + Put24(|body|) + (body + tail);
    fixed := head + Put24(|body|) + h.versionAndRandom;
  }

  /** The variable-length fields before the extensions. */
  lemma VariableReadBack(fixed: seq<Byte>, session: seq<Byte>, ciphers: seq<Byte>, methods: seq<Byte>,
                         extensions: seq<Byte>, tail: seq<Byte>)
    requires |fixed| == 43 && |session| < 0x100 && |ciphers| < 0x1_0000 && |methods| < 0x100 && |extensions| < 0x1_0000
    ensures var d := fixed + (([|session| % 256] + session) + (Put16(|ciphers|) + ciphers)
                              + ([|methods| % 256] + methods) + (Put16(|extensions|) + extensions)) + tail;
            var c := 44 + |session|;
            var m := c + 2 + |ciphers|;
            var e := m + 1 + |methods|;
            |d| == e + 2 + |extensions| + |tail|
            && d[43] as int == |session| && U16(d, c) == |ciphers|
            && d[m] as int == |methods| && U16(d, e) == |extensions|
  {
    hide U16, Put16;
    PutWidth(|ciphers|);
    PutWidth(|extensions|);
    var a, b := [|session| % 256] + session, Put16(|ciphers|) + ciphers;
    var c, e := [|methods| % 256] + methods, Put16(|extensions|) + extensions;
    VariableParts(fixed, a, b, c, e, tail);
    CiphersLength(fixed, a, ciphers, c, e, tail);
    ExtensionsLength(fixed, a, b, c, extensions, tail);
  }

  lemma VariableParts(f: seq<Byte>, a: seq<Byte>, b: seq<Byte>, c: seq<Byte>, e: seq<Byte>, t: seq<Byte>)
    requires a != [] && c != []
    ensures var d := f + (a + b + c + e) + t;
            d[|f|] == a[0] && d[|f| + |a| + |b|] == c[0]
  {
  }

  lemma CiphersLength(f: seq<Byte>, a: seq<Byte>, ciphers: seq<Byte>, c: seq<Byte>, e: seq<Byte>, t: seq<Byte>)
    requires |ciphers| < 0x1_0000
    ensures var d := f + (a + (Put16(|ciphers|) + ciphers) + c + e) + t;
            |d| >= |f| + |a| + 2 && U16(d, |f| + |a|) == |ciphers|
  {
    hide U16, Put16;
    var b := Put16(|ciphers|) + ciphers;
    ReadLength(f + a, |ciphers|, ciphers, c + e + t);
    assert f + (a + b + c + e) + t == f + a + b + (c + e + t);
  }

  lemma ExtensionsLength(f: seq<Byte>, a: seq<Byte>, b: seq<Byte>, c: seq<Byte>, extensions: seq<Byte>, t: seq<Byte>)
    requires |extensions| < 0x1_0000
    ensures var d := f + (a + b + c + (Put16(|extensions|) + extensions)) + t;
            var at := |f| + |a| + |b| + |c|;
            |d| >= at + 2 && U16(d, at) == |extensions|
  {
    hide U16, Put16;
    var e := Put16(|extensions|) + extensions;
    ReadLength(f + a + b + c, |extensions|, extensions, t);
    assert f + (a + b + c + e) + t == f + a + b + c + e + t;
  }

  /** A 16-bit length in front of its bytes is read back. */
  lemma ReadLength(p: seq<Byte>, n: nat, bytes: seq<Byte>, rest: seq<Byte>)
    requires n < 0x1_0000
    ensures |p + (Put16(n) + bytes) + rest| >= |p| + 2 && U16(p + (Put16(n) + bytes) + rest, |p|) == n
  {
    hide U16, Put16;
    PutWidth(n);
    ReadPut(p, n, bytes + rest);
    assert p + (Put16(n) + bytes) + rest == p + Put16(n) + (bytes + rest);
  }

  /** Round trip: from every well-formed ClientHello, followed by anything, the parser extracts exactly
      the first host_name, and nothing when there is none or it is empty. */
  lemma SerializedHelloReadBack(h: Hello, tail: seq<Byte>)
    requires WellFormed(h)
    ensures ExtractSni(Serialize(h) + tail) ==
            match FirstHostName(h.extensions) case None => None case Some(name) => NonEmpty(name)
  {
    hide ExtensionBlock, WalkExtensions, Serialize, ExtensionsBytes, FirstHostName, WellFormedExtension;
    var a := BlockReadBack(h, tail);
    ExtensionsReadBack(a, h.extensions, tail);
  }
}
