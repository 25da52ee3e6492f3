/** Redirecting a captured packet to the local proxy (src/capture/win_divert_capture.cpp), and undoing
    it through the flow table. */
module Redirect {
  import opened Text
  import opened Octets
  import FlowTable

  type Packet = seq<Byte>

  const TCP: int := 6
  const UDP: int := 17

  const LOOPBACK_IPV6: seq<Byte> := [0, 0, 0, 0, 0, 0, 0, 0, 0, 0, 0, 0, 0, 0, 0, 1]

  datatype Config = Config(tcpEnabled: bool, tcpListenPort: nat, udpEnabled: bool, udpListenPort: nat)

  /** Where the rewritten fields lie. */
  datatype Layout = Layout(protocol: int, sourceAt: nat, destinationAt: nat, width: nat, portsAt: nat)

  /** The text form of an address, as `InetNtop` gives it. */
  type AddressText = seq<Byte> -> string

  ghost predicate Injective(text: AddressText) {
    forall a, b | |a| == |b| && text(a) == text(b) :: a == b
  }

  function Slice(p: Packet, at: nat, width: nat): Packet
    requires at + width <= |p|
  {
    p[at..at + width]
  }

  /** `p` with `bytes` written at `at`. */
  function Put(p: Packet, at: nat, bytes: Packet): Packet
    requires at + |bytes| <= |p|
  {
    p[..at] + bytes + p[at + |bytes|..]
  }

  // ---------- the stored IPv4 address ----------

  /** The constant of line 56, whose bytes in memory already are 127.0.0.1. */
  const LOOPBACK_WORD: nat := 0x0100_007F

  /** A 32-bit word as a little-endian host keeps it in memory. */
  function InMemory(word: nat): (r: seq<Byte>)
    ensures |r| == 4
  {
    [word % 256, word / 0x100 % 256, word / 0x1_0000 % 256, word / 0x100_0000 % 256]
  }

  /** `htonl` on a little-endian host swaps the bytes of the word. */
  function Htonl(word: nat): nat {
    word % 256 * 0x100_0000 + word / 0x100 % 256 * 0x1_0000 + word / 0x1_0000 % 256 * 0x100 + word / 0x100_0000 % 256
  }

  /** What lines 241 and 261 write, and line 221 compares with. */
  function StoredIpv4(): (r: seq<Byte>)
    ensures |r| == 4
  {
    InMemory(Htonl(LOOPBACK_WORD))
  }

  /** An address of the host itself: 127.0.0.0/8 or ::1. */
  predicate IsLoopback(address: seq<Byte>) {
    (|address| == 4 && address[0] == 127) || address == LOOPBACK_IPV6
  }

  lemma HtonlReverses(word: nat)
    requires word < 0x1_0000_0000
    ensures var m := InMemory(word); InMemory(Htonl(word)) == [m[3], m[2], m[1], m[0]]
  {
    var a, b, c, d := word % 256, word / 0x100 % 256, word / 0x1_0000 % 256, word / 0x100_0000 % 256;
    FourDigits(a, b, c, d);
  }

  lemma FourDigits(a: nat, b: nat, c: nat, d: nat)
    requires a < 256 && b < 256 && c < 256 && d < 256
    ensures InMemory(a * 0x100_0000 + b * 0x1_0000 + c * 0x100 + d) == [d, c, b, a]
  {
    var n := a * 0x100_0000 + b * 0x1_0000 + c * 0x100 + d;
    assert n / 0x100 == a * 0x1_0000 + b * 0x100 + c;
    assert n / 0x1_0000 == a * 0x100 + b;
    assert n / 0x100_0000 == a;
  }

  /** The word is right as it stands; `htonl` turns it into 1.0.0.127, which is no loopback address. */
  lemma StoredAddress()
    ensures InMemory(LOOPBACK_WORD) == [127, 0, 0, 1]
    ensures StoredIpv4() == [1, 0, 0, 127] && !IsLoopback(StoredIpv4())
  {
    HtonlReverses(LOOPBACK_WORD);
  }

  // ---------- what is rewritten ----------

  function LayoutOf(p: Packet): (r: Option<Layout>)
    ensures r.Some? ==>
              var l := r.value;
              (l.width == 4 || l.width == 16) && l.sourceAt + l.width == l.destinationAt
              && l.destinationAt + l.width <= l.portsAt <= |p|
  {
    if p == [] then None
    else if p[0] as int / 16 == 4 then
      if |p| < 20 then None
      else
        var ihl := p[0] as int % 16 * 4;
        if ihl < 20 || |p| < ihl then None else Some(Layout(p[9] as int, 12, 16, 4, ihl))
    else if p[0] as int / 16 == 6 then
      if |p| < 40 then None else Some(Layout(p[6] as int, 8, 24, 16, 40))
    else None
  }

  function Stored(width: nat): seq<Byte> {
    if width == 4 then StoredIpv4() else LOOPBACK_IPV6
  }

  /** The port the packet is sent to instead, when its protocol is redirected at all. */
  function ListenPort(c: Config, protocol: int): Option<nat> {
    if protocol == TCP && c.tcpEnabled then Some(c.tcpListenPort)
    else if protocol == UDP && c.udpEnabled then Some(c.udpListenPort)
    else None
  }

  predicate Redirects(c: Config, p: Packet) {
    match LayoutOf(p)
    case None => false
    case Some(l) =>
      && Slice(p, l.destinationAt, l.width) != Stored(l.width)
      && ListenPort(c, l.protocol).Some?
      && l.portsAt + 4 <= |p|
      && U16(p, l.portsAt + 2) != ListenPort(c, l.protocol).value
  }

  function Rewritten(c: Config, p: Packet): Packet
    requires Redirects(c, p)
  {
    var l := LayoutOf(p).value;
    Put(Put(p, l.portsAt + 2, Put16(ListenPort(c, l.protocol).value)), l.destinationAt, Stored(l.width))
  }

  /** The key under which the flow of a packet is remembered and looked up. */
  function KeyOf(p: Packet, text: AddressText): FlowTable.FlowKey
    requires LayoutOf(p).Some? && LayoutOf(p).value.portsAt + 4 <= |p|
  {
    var l := LayoutOf(p).value;
    FlowTable.FlowKey(l.protocol, text(Slice(p, l.sourceAt, l.width)), U16(p, l.portsAt))
  }

  function DestinationOf(p: Packet, text: AddressText): FlowTable.Destination
    requires LayoutOf(p).Some? && LayoutOf(p).value.portsAt + 4 <= |p|
  {
    var l := LayoutOf(p).value;
    FlowTable.Destination(text(Slice(p, l.destinationAt, l.width)), U16(p, l.portsAt + 2))
  }

  // ---------- the method ----------

  /** `rewrite_packet_to_local_proxy`, in place. */
  method RewritePacketToLocalProxy(packet: array<Byte>, c: Config, flows: FlowTable.Table, now: int, text: AddressText)
    returns (rewritten: bool)
    modifies packet, flows
    ensures rewritten <==> Redirects(c, old(packet[..]))
    ensures !rewritten ==> packet[..] == old(packet[..]) && flows.table == old(flows.table)
    ensures rewritten ==> packet[..] == Rewritten(c, old(packet[..]))
    ensures rewritten ==>
              flows.table == FlowTable.Remembered(old(flows.table), KeyOf(old(packet[..]), text),
                                                  DestinationOf(old(packet[..]), text), now, FlowTable.TooLarge)
  {
    hide FlowTable.Remembered;
    if packet.Length < 1 {
      return false;
    }
    var version := packet[0] as int / 16;
    if version == 4 {
      if packet.Length < 20 {
        return false;
      }
      var ihlBytes := packet[0] as int % 16 * 4;
      if ihlBytes < 20 || packet.Length < ihlBytes {
        return false;
      }
      rewritten := RewriteTransport(packet, Layout(packet[9] as int, 12, 16, 4, ihlBytes), c, flows, now, text);
    } else if version == 6 {
      if packet.Length < 40 {
        return false;
      }
      rewritten := RewriteTransport(packet, Layout(packet[6] as int, 8, 24, 16, 40), c, flows, now, text);
    } else {
      rewritten := false;
    }
  }

  /** The part that the IPv4 and IPv6 branches, and their TCP and UDP branches, share. */
  method RewriteTransport(packet: array<Byte>, l: Layout, c: Config, flows: FlowTable.Table, now: int,
                          text: AddressText)
    returns (rewritten: bool)
    requires LayoutOf(packet[..]) == Some(l)
    modifies packet, flows
    ensures rewritten <==> Redirects(c, old(packet[..]))
    ensures !rewritten ==> packet[..] == old(packet[..]) && flows.table == old(flows.table)
    ensures rewritten ==> packet[..] == Rewritten(c, old(packet[..]))
    ensures rewritten ==>
              flows.table == FlowTable.Remembered(old(flows.table), KeyOf(old(packet[..]), text),
                                                  DestinationOf(old(packet[..]), text), now, FlowTable.TooLarge)
  {
    hide LayoutOf, FlowTable.Remembered, Put, Put16, Stored;
    StoredWidth(l.width);
    var p := packet[..];
    if Slice(p, l.destinationAt, l.width) == Stored(l.width) {
      return false;
    }
    var listenPort := 0;
    if l.protocol == 6 {
      if !c.tcpEnabled {
        return false;
      }
      listenPort := c.tcpListenPort;
    } else if l.protocol == 17 {
      if !c.udpEnabled {
        return false;
      }
      listenPort := c.udpListenPort;
    } else {
      return false;
    }
    if packet.Length < l.portsAt + 4 {
      return false;
    }
    var destinationPort, sourcePort := U16(p, l.portsAt + 2), U16(p, l.portsAt);
    if destinationPort == listenPort {
      return false;
    }
    flows.RememberMapping(now, l.protocol, text(Slice(p, l.sourceAt, l.width)), sourcePort,
                          text(Slice(p, l.destinationAt, l.width)), destinationPort);
    PortWidth(listenPort);
    WriteAt(packet, l.portsAt + 2, Put16(listenPort));
    WriteAt(packet, l.destinationAt, Stored(l.width));
    rewritten := true;
  }

  method WriteAt(packet: array<Byte>, at: nat, bytes: seq<Byte>)
    requires at + |bytes| <= packet.Length
    modifies packet
    ensures packet[..] == Put(old(packet[..]), at, bytes)
  {
    for i := 0 to |bytes|
      invariant forall j | 0 <= j < packet.Length ::
                  packet[j] == if at <= j < at + i then bytes[j - at] else old(packet[j])
    {
      packet[at + i] := bytes[i];
    }
    assert forall j | 0 <= j < packet.Length :: packet[..][j] == Put(old(packet[..]), at, bytes)[j];
  }

  // ---------- main results ----------

  lemma PutTwiceAt(p: Packet, a: nat, x: Packet, b: nat, y: Packet)
    requires a + |x| <= |p| && b + |y| <= a
    ensures var q := Put(Put(p, a, x), b, y);
            |q| == |p|
            && (forall i | 0 <= i < |p| && !(b <= i < b + |y|) && !(a <= i < a + |x|) :: q[i] == p[i])
            && q[b..b + |y|] == y && q[a..a + |x|] == x
  {
    var r := Put(p, a, x);
    var q := Put(r, b, y);
    assert forall i | 0 <= i < |p| && !(a <= i < a + |x|) :: r[i] == p[i];
    assert forall i | 0 <= i < |p| && !(b <= i < b + |y|) :: q[i] == r[i];
    assert r[a..a + |x|] == x;
  }

  /** Only the bytes of the destination port and of the destination address change. */
  lemma OnlyDestinationChanges(c: Config, p: Packet)
    requires Redirects(c, p)
    ensures var q, l := Rewritten(c, p), LayoutOf(p).value;
            && |q| == |p|
            && (forall i | 0 <= i < |p| && !(l.destinationAt <= i < l.destinationAt + l.width)
                  && !(l.portsAt + 2 <= i < l.portsAt + 4) :: q[i] == p[i])
            && q[l.destinationAt..l.destinationAt + l.width] == Stored(l.width)
            && q[l.portsAt + 2..l.portsAt + 4] == Put16(ListenPort(c, l.protocol).value)
  {
    hide LayoutOf, Put, Put16, U16, Stored, ListenPort;
    var l := LayoutOf(p).value;
    var port := Put16(ListenPort(c, l.protocol).value);
    assert |port| == 2 by { PortWidth(ListenPort(c, l.protocol).value); }
    StoredWidth(l.width);
    PutTwiceAt(p, l.portsAt + 2, port, l.destinationAt, Stored(l.width));
  }

  lemma PortWidth(port: nat)
    ensures |Put16(port)| == 2
  {
  }

  lemma StoredWidth(width: nat)
    requires width == 4 || width == 16
    ensures |Stored(width)| == width
  {
  }

  /** A redirected packet is addressed to the host itself if and only if it is IPv6. The guard against
      packets that already go there lets every IPv4 loopback destination through. */
  lemma ReachesLoopbackIffIpv6(c: Config, p: Packet)
    requires Redirects(c, p)
    ensures var l := LayoutOf(p).value;
            && |Rewritten(c, p)| == |p|
            && (IsLoopback(Slice(Rewritten(c, p), l.destinationAt, l.width)) <==> l.width == 16)
            && (forall address | |address| == 4 && IsLoopback(address) :: address != Stored(4))
  {
    hide LayoutOf, Rewritten, StoredIpv4;
    OnlyDestinationChanges(c, p);
    StoredAddress();
  }

  // ---------- on the bytes of the packet ----------

  /** IPv4: exactly which packets are redirected, and to what. The ports follow a header of 20 bytes or
      more, whose length is in the first byte. Protocol 6 goes to the TCP port and 17 to the UDP port, when
      they are enabled; packets to 1.0.0.127 or to that port are refused. */
  lemma Ipv4ByBytes(c: Config, p: Packet)
    requires p != [] && p[0] as int / 16 == 4
    ensures var at := p[0] as int % 16 * 4;
            Redirects(c, p) <==>
              && at >= 20 && at + 4 <= |p| && p[16..20] != [1, 0, 0, 127]
              && var port := 256 * p[at + 2] as int + p[at + 3] as int;
                 || (p[9] == 6 && c.tcpEnabled && port != c.tcpListenPort)
                 || (p[9] == 17 && c.udpEnabled && port != c.udpListenPort)
    ensures Redirects(c, p) ==>
              var at, q := p[0] as int % 16 * 4, Rewritten(c, p);
              var port := if p[9] == 6 then c.tcpListenPort else c.udpListenPort;
              && |q| == |p| && q[16..20] == [1, 0, 0, 127]
              && q[at + 2..at + 4] == [port / 256 % 256, port % 256]
  {
    hide StoredIpv4, Rewritten;
    StoredAddress();
    if Redirects(c, p) { OnlyDestinationChanges(c, p); }
  }

  /** IPv6: the same with a header of 40 bytes and the address ::1. */
  lemma Ipv6ByBytes(c: Config, p: Packet)
    requires p != [] && p[0] as int / 16 == 6
    ensures Redirects(c, p) <==>
              && |p| >= 44 && p[24..40] != [0, 0, 0, 0, 0, 0, 0, 0, 0, 0, 0, 0, 0, 0, 0, 1]
              && var port := 256 * p[42] as int + p[43] as int;
                 || (p[6] == 6 && c.tcpEnabled && port != c.tcpListenPort)
                 || (p[6] == 17 && c.udpEnabled && port != c.udpListenPort)
    ensures Redirects(c, p) ==>
              var q := Rewritten(c, p);
              var port := if p[6] == 6 then c.tcpListenPort else c.udpListenPort;
              && |q| == |p| && q[24..40] == [0, 0, 0, 0, 0, 0, 0, 0, 0, 0, 0, 0, 0, 0, 0, 1]
              && q[42..44] == [port / 256 % 256, port % 256]
  {
    hide Rewritten;
    if Redirects(c, p) { OnlyDestinationChanges(c, p); }
  }

  /** Under which flow a packet is remembered, and with which destination: protocol, source address and
      source port, and destination address and port, off the bytes. */
  lemma FlowByBytes(c: Config, p: Packet, text: AddressText)
    requires Redirects(c, p)
    ensures p[0] as int / 16 == 4 ==>
              var at := p[0] as int % 16 * 4;
              && KeyOf(p, text) ==
                   FlowTable.FlowKey(p[9] as int, text(p[12..16]), 256 * p[at] as int + p[at + 1] as int)
              && DestinationOf(p, text) ==
                   FlowTable.Destination(text(p[16..20]), 256 * p[at + 2] as int + p[at + 3] as int)
    ensures p[0] as int / 16 != 4 ==>
              && KeyOf(p, text) == FlowTable.FlowKey(p[6] as int, text(p[8..24]), 256 * p[40] as int + p[41] as int)
              && DestinationOf(p, text) ==
                   FlowTable.Destination(text(p[24..40]), 256 * p[42] as int + p[43] as int)
  {
  }

  /** Anything else is no IP packet. */
  lemma OthersByBytes(c: Config, p: Packet)
    requires p == [] || (p[0] as int / 16 != 4 && p[0] as int / 16 != 6)
    ensures !Redirects(c, p)
  {
  }

  const TWO_PORTS: Config := Config(true, 8080, true, 9090)

  const UDP_PACKET: Packet :=
    [0x45, 0, 0, 24, 0, 0, 0, 0, 64, 17, 0, 0, 10, 0, 0, 2, 8, 8, 8, 8, 0xC0, 0, 0, 53]

  /** A UDP packet from 10.0.0.2 to 8.8.8.8 port 53 goes to the UDP port. */
  lemma UdpExample()
    ensures Redirects(TWO_PORTS, UDP_PACKET)
    ensures Rewritten(TWO_PORTS, UDP_PACKET) ==
              [0x45, 0, 0, 24, 0, 0, 0, 0, 64, 17, 0, 0, 10, 0, 0, 2, 1, 0, 0, 127, 0xC0, 0, 0x23, 0x82]
  {
    hide Redirects, Rewritten, LayoutOf;
    var p := UDP_PACKET;
    assert p[16..20][0] == 8;
    Ipv4ByBytes(TWO_PORTS, p);
    UdpLayout();
    OnlyDestinationChanges(TWO_PORTS, p);
    FromParts(p, Rewritten(TWO_PORTS, p), 16, 20);
  }

  lemma UdpLayout()
    ensures LayoutOf(UDP_PACKET) == Some(Layout(UDP, 12, 16, 4, 20))
  {
  }

  const IPV6_HEAD: Packet := [0x60, 0, 0, 0, 0, 4, 6, 64, 0, 0, 0, 0, 0, 0, 0, 0, 0, 0, 0, 0, 0, 0, 0, 2]

  /** A TCP packet over IPv6 from ::2 to ::3 port 443 goes to the TCP port of ::1. */
  lemma Ipv6Example()
    ensures var p := IPV6_HEAD + [0, 0, 0, 0, 0, 0, 0, 0, 0, 0, 0, 0, 0, 0, 0, 3] + [0xC0, 0] + [1, 0xBB];
            && Redirects(TWO_PORTS, p)
            && Rewritten(TWO_PORTS, p) ==
                 IPV6_HEAD + [0, 0, 0, 0, 0, 0, 0, 0, 0, 0, 0, 0, 0, 0, 0, 1] + [0xC0, 0] + [0x1F, 0x90]
  {
    hide Redirects, Rewritten, LayoutOf;
    var three: Packet := [0, 0, 0, 0, 0, 0, 0, 0, 0, 0, 0, 0, 0, 0, 0, 3];
    var p := IPV6_HEAD + three + [0xC0, 0] + [1, 0xBB];
    Ipv6Parts(three, [0xC0, 0], [1, 0xBB]);
    Ipv6ByBytes(TWO_PORTS, p);
    OnlyDestinationChanges(TWO_PORTS, p);
    FromParts(p, Rewritten(TWO_PORTS, p), 24, 40);
  }

  /** A packet that ends with its ports, put together from what stayed and what was written. */
  lemma FromParts(p: Packet, q: Packet, destinationAt: nat, portsAt: nat)
    requires destinationAt <= portsAt && |p| == |q| == portsAt + 4
    requires forall i | 0 <= i < |p| && !(destinationAt <= i < portsAt) && !(portsAt + 2 <= i) :: q[i] == p[i]
    ensures q == p[..destinationAt] + q[destinationAt..portsAt] + p[portsAt..portsAt + 2] + q[portsAt + 2..portsAt + 4]
  {
  }

  lemma Ipv6Parts(address: Packet, source: Packet, destination: Packet)
    requires |address| == 16 && |source| == 2 && |destination| == 2
    ensures var p := IPV6_HEAD + address + source + destination;
            && |p| == 44 && p[0] == 0x60 && p[6] == 6 && p[..24] == IPV6_HEAD && p[24..40] == address
            && p[40..42] == source && p[42] == destination[0] && p[43] == destination[1]
            && LayoutOf(p) == Some(Layout(TCP, 8, 24, 16, 40))
  {
  }

  const EXAMPLE_CONFIG: Config := Config(true, 8080, false, 0)

  /** 24 bytes from 10.0.0.2 port 49152 to 127.0.0.1 port 80. */
  const EXAMPLE_PACKET: Packet :=
    [0x45, 0, 0, 24, 0, 0, 0, 0, 64, 6, 0, 0, 10, 0, 0, 2, 127, 0, 0, 1, 0xC0, 0, 0, 80]

  /** A packet that already goes to the host passes the guard and is sent to 1.0.0.127. */
  lemma LoopbackPacketIsSentAway()
    ensures Redirects(EXAMPLE_CONFIG, EXAMPLE_PACKET)
    ensures LayoutOf(EXAMPLE_PACKET) == Some(Layout(TCP, 12, 16, 4, 20))
    ensures IsLoopback(Slice(EXAMPLE_PACKET, 16, 4))
    ensures Rewritten(EXAMPLE_CONFIG, EXAMPLE_PACKET) ==
              [0x45, 0, 0, 24, 0, 0, 0, 0, 64, 6, 0, 0, 10, 0, 0, 2, 1, 0, 0, 127, 0xC0, 0, 0x1F, 0x90]
  {
    hide Redirects, Rewritten, LayoutOf;
    var p := EXAMPLE_PACKET;
    assert p[16..20] == [127, 0, 0, 1] && p[16..20][0] == 127;
    Ipv4ByBytes(EXAMPLE_CONFIG, p);
    ExampleLayout();
    OnlyDestinationChanges(EXAMPLE_CONFIG, p);
    FromParts(p, Rewritten(EXAMPLE_CONFIG, p), 16, 20);
  }

  lemma ExampleLayout()
    ensures LayoutOf(EXAMPLE_PACKET) == Some(Layout(TCP, 12, 16, 4, 20))
  {
  }

  lemma LayoutSurvives(c: Config, p: Packet)
    requires Redirects(c, p)
    ensures |Rewritten(c, p)| == |p| && LayoutOf(Rewritten(c, p)) == LayoutOf(p)
  {
    hide Rewritten;
    OnlyDestinationChanges(c, p);
  }

  lemma KeySurvives(c: Config, p: Packet, text: AddressText)
    requires Redirects(c, p)
    ensures |Rewritten(c, p)| == |p| && LayoutOf(Rewritten(c, p)) == LayoutOf(p)
    ensures KeyOf(Rewritten(c, p), text) == KeyOf(p, text)
  {
    hide Rewritten, LayoutOf;
    LayoutSurvives(c, p);
    OnlyDestinationChanges(c, p);
    var l := LayoutOf(p).value;
    assert Slice(Rewritten(c, p), l.sourceAt, l.width) == Slice(p, l.sourceAt, l.width);
  }

  /** Rewriting a rewritten packet does nothing. */
  lemma SecondRewriteDoesNothing(c: Config, p: Packet)
    requires Redirects(c, p)
    ensures !Redirects(c, Rewritten(c, p))
  {
    hide Rewritten, LayoutOf;
    LayoutSurvives(c, p);
    OnlyDestinationChanges(c, p);
  }

  /** The packet with its destination put back. */
  function Restored(q: Packet, address: seq<Byte>, port: nat): Packet
    requires LayoutOf(q).Some? && LayoutOf(q).value.portsAt + 4 <= |q| && |address| == LayoutOf(q).value.width
  {
    var l := LayoutOf(q).value;
    Put(Put(q, l.portsAt + 2, Put16(port)), l.destinationAt, address)
  }

  /** Writing the original destination back gives the original packet. */
  lemma RestoreUndoesRewrite(c: Config, p: Packet)
    requires Redirects(c, p)
    ensures |Rewritten(c, p)| == |p| && LayoutOf(Rewritten(c, p)) == LayoutOf(p)
    ensures var l := LayoutOf(p).value;
            Restored(Rewritten(c, p), Slice(p, l.destinationAt, l.width), U16(p, l.portsAt + 2)) == p
  {
    hide LayoutOf, Rewritten, Put;
    LayoutSurvives(c, p);
    OnlyDestinationChanges(c, p);
    var l, q := LayoutOf(p).value, Rewritten(c, p);
    PutRead(p, l.portsAt + 2);
    PutTwiceAt(q, l.portsAt + 2, Put16(U16(p, l.portsAt + 2)), l.destinationAt, Slice(p, l.destinationAt, l.width));
    var r := Restored(q, Slice(p, l.destinationAt, l.width), U16(p, l.portsAt + 2));
    forall i | 0 <= i < |p| ensures r[i] == p[i] {
      if l.portsAt + 2 <= i < l.portsAt + 4 {
        assert p[i] == p[l.portsAt + 2..l.portsAt + 4][i - l.portsAt - 2];
        assert r[i] == r[l.portsAt + 2..l.portsAt + 4][i - l.portsAt - 2];
      } else if l.destinationAt <= i < l.destinationAt + l.width {
        assert p[i] == Slice(p, l.destinationAt, l.width)[i - l.destinationAt];
        assert r[i] == r[l.destinationAt..l.destinationAt + l.width][i - l.destinationAt];
      }
    }
  }

  /** The destination of a key is the one it was last remembered with. */
  lemma {:induction false} LastDestinationIs(history: seq<FlowTable.Op>, k: nat, key: FlowTable.FlowKey,
                                             destination: FlowTable.Destination)
    requires k < |history| && history[k].Remember? && history[k].key == key && history[k].destination == destination
    requires forall j | k < j < |history| && history[j].Remember? && history[j].key == key ::
               history[j].destination == destination
    ensures FlowTable.LastDestination(history, key) == destination && FlowTable.Touches(history, key) != []
  {
    if k < |history| - 1 {
      LastDestinationIs(history[..|history| - 1], k, key, destination);
    }
  }

  /** The redirect is invertible through the flow table. In any ordered history of remembers and lookups,
      of any flows, in which the flow of `p` was remembered and not remembered elsewhere since, looking up
      the rewritten packet answers exactly while no gap between touches of the flow was too long; and
      the destination it answers, written back, restores the original packet byte for byte. */
  lemma RedirectIsInvertible(c: Config, p: Packet, text: AddressText, history: seq<FlowTable.Op>, k: nat, later: int,
                             address: seq<Byte>)
    requires Redirects(c, p) && Injective(text)
    requires FlowTable.Ordered(history) && k < |history| && FlowTable.Clock(history) <= later
    requires history[k] == FlowTable.Remember(KeyOf(p, text), DestinationOf(p, text), history[k].at)
    requires forall j | k < j < |history| && history[j].Remember? && history[j].key == KeyOf(p, text) ::
               history[j].destination == DestinationOf(p, text)
    ensures |Rewritten(c, p)| == |p| && LayoutOf(Rewritten(c, p)) == LayoutOf(p)
    ensures var reply := FlowTable.Reply(FlowTable.TableAfter(history, FlowTable.TooLarge),
                                         KeyOf(Rewritten(c, p), text), later);
            && (reply.Some? <==> FlowTable.NoLongGap(FlowTable.Touches(history, KeyOf(p, text)) + [later]))
            && (reply.Some? ==> reply == Some(DestinationOf(p, text)))
            && (reply.Some? && |address| == LayoutOf(p).value.width && text(address) == reply.value.host ==>
                  Restored(Rewritten(c, p), address, reply.value.port) == p)
  {
    hide LayoutOf, Rewritten, Restored, FlowTable.TableAfter, FlowTable.Reply, FlowTable.Touches,
         FlowTable.LastDestination;
    KeySurvives(c, p, text);
    RestoreUndoesRewrite(c, p);
    LastDestinationIs(history, k, KeyOf(p, text), DestinationOf(p, text));
    FlowTable.LookupKeepsPromise(history, KeyOf(p, text), later, FlowTable.TooLarge);
  }
}
