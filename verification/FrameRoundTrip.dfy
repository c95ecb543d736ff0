/** A frame dissects (src/packet.c) to a transport header exactly when its headers are written in it. */
module FrameRoundTrip {
  import opened Bytes
  import opened Headers
  import H = HeaderTheorems
  import opened ExtensionChain
  import opened ExtensionHeaders
  import Dns = DnsMessage
  import opened Dissection
  import opened DissectionTheorems

  // ----- Headers written in a capture, whatever their ignored bits -----

  predicate EthernetWritten(data: seq<byte>, h: Ethernet) {
    ValidEthernet(h) && exists priority: nat :: priority < 16 && EncodeEthernet(h, priority) <= data
  }

  predicate IPv4Written(data: seq<byte>, h: IPv4) {
    && ValidIPv4(h) && h.headerLength <= |data|
    && exists reserved: bool :: EncodeIPv4(h, reserved) <= data
  }

  predicate IPv6Written(data: seq<byte>, h: IPv6) {
    ValidIPv6(h) && EncodeIPv6(h) <= data
  }

  predicate TcpWritten(data: seq<byte>, h: Tcp) {
    && ValidTcp(h) && h.headerLength <= |data|
    && exists reserved: nat :: reserved < 16 && EncodeTcp(h, reserved) <= data
  }

  predicate EchoWritten(data: seq<byte>, h: Icmp, request: byte, reply: byte) {
    ValidEcho(h, request, reply) && EncodeEcho(h, request, reply) <= data
  }

  predicate HeaderWritten(data: seq<byte>, n: Network) {
    match n
    case OverIPv4(h) => IPv4Written(data, h)
    case OverIPv6(h) => IPv6Written(data, h)
    case OverArp(h) => ValidArp(h) && EncodeArp(h) <= data
    case NoNetwork => false
  }

  /** The network header at `at`, with at most seven IPv6 extension headers behind it, leads to a
      transport header of protocol `proto` at `next`. */
  ghost predicate Leads(data: seq<byte>, at: nat, n: Network, proto: byte, next: nat) {
    match n
    case OverIPv4(h) => next == at + h.headerLength && h.protocol == proto && h.fragmentOffset == 0
    case OverIPv6(h) => LeadsTo(data, at + 40, h.nextHeader, next, proto)
    case _ => false
  }

  ghost predicate NetworkWritten(data: seq<byte>, at: nat, n: Network, proto: byte, next: nat)
    requires at <= |data|
  {
    HeaderWritten(data[at..], n) && Leads(data, at, n, proto, next)
  }

  function EthertypeOf(n: Network): u16 {
    match n
    case OverIPv4(_) => 0x0800
    case OverIPv6(_) => 0x86DD
    case _ => 0x0806
  }

  /** The transport header at the front of `data`. */
  predicate TransportWritten(data: seq<byte>, t: Transport) {
    match t
    case OverTcp(h) => TcpWritten(data, h)
    case OverUdp(h) => h.length >= 8 && EncodeUdp(h) <= data
    case OverIcmp(h) => EchoWritten(data, h, 8, 0)
    case OverIcmpv6(h) => EchoWritten(data, h, 128, 129)
    case NoTransport => false
  }

  function ProtocolOf(t: Transport): byte {
    match t
    case OverTcp(_) => 6
    case OverUdp(_) => 17
    case OverIcmp(_) => 1
    case _ => 58
  }

  // ----- One layer: decoded exactly when written -----

  lemma EthernetExactly(data: seq<byte>, h: Ethernet)
    ensures EthernetWritten(data, h) <==> ParseEthernet(data) == Parsed(h, LinkLength(h))
  {
    if EthernetWritten(data, h) {
      var priority: nat :| priority < 16 && EncodeEthernet(h, priority) <= data;
      H.EthernetRoundTrip(h, priority, data);
    }
    if ParseEthernet(data) == Parsed(h, LinkLength(h)) {
      H.EthernetSound(data);
      assert EncodeEthernet(h, if h.hasVlan then data[14] / 16 else 0) <= data;
    }
  }

  lemma IPv4Exactly(data: seq<byte>, h: IPv4)
    ensures IPv4Written(data, h) <==> ParseIPv4(data) == Parsed(h, h.headerLength)
  {
    if IPv4Written(data, h) {
      var reserved :| EncodeIPv4(h, reserved) <= data;
      H.IPv4RoundTrip(h, reserved, data);
    }
    if ParseIPv4(data) == Parsed(h, h.headerLength) {
      H.IPv4Sound(data);
      assert EncodeIPv4(h, U16(data, 6) >= 0x8000) <= data;
    }
  }

  lemma IPv6Exactly(data: seq<byte>, h: IPv6)
    ensures IPv6Written(data, h) <==> ParseIPv6(data) == Parsed(h, 40)
  {
    if IPv6Written(data, h) {
      H.IPv6RoundTrip(h, data);
    }
    if ParseIPv6(data) == Parsed(h, 40) {
      H.IPv6Sound(data);
    }
  }

  lemma ArpExactly(data: seq<byte>, h: Arp)
    ensures ValidArp(h) && EncodeArp(h) <= data <==> ParseArp(data) == Parsed(h, 28)
  {
    if ValidArp(h) && EncodeArp(h) <= data {
      H.ArpRoundTrip(h, data);
    }
    if ParseArp(data) == Parsed(h, 28) {
      H.ArpSound(data);
    }
  }

  lemma TcpExactly(data: seq<byte>, h: Tcp)
    ensures TcpWritten(data, h) <==> ParseTcp(data) == Parsed(h, h.headerLength)
  {
    if TcpWritten(data, h) {
      var reserved: nat :| reserved < 16 && EncodeTcp(h, reserved) <= data;
      H.TcpRoundTrip(h, reserved, data);
    }
    if ParseTcp(data) == Parsed(h, h.headerLength) {
      H.TcpSound(data);
      assert EncodeTcp(h, data[12] % 16) <= data;
    }
  }

  lemma UdpExactly(data: seq<byte>, h: Udp)
    ensures h.length >= 8 && EncodeUdp(h) <= data <==> ParseUdp(data) == Parsed(h, 8)
  {
    if h.length >= 8 && EncodeUdp(h) <= data {
      H.UdpRoundTrip(h, data);
    }
    if ParseUdp(data) == Parsed(h, 8) {
      H.UdpSound(data);
    }
  }

  lemma EchoExactly(data: seq<byte>, h: Icmp, request: byte, reply: byte)
    ensures EchoWritten(data, h, request, reply) <==>
            ParseEcho(data, request, reply) == Parsed(h, |EncodeEcho(h, request, reply)|)
  {
    if EchoWritten(data, h, request, reply) {
      H.EchoRoundTrip(h, request, reply, data);
    }
    if ParseEcho(data, request, reply) == Parsed(h, |EncodeEcho(h, request, reply)|) {
      H.EchoSound(data, request, reply);
    }
  }

  // ----- Layer upon layer -----

  lemma TransportExactly(data: seq<byte>, at: nat, t: Transport, proto: byte)
    requires at <= |data| && t != NoTransport
    ensures TransportLayer(data, at, proto).transport == t <==>
            proto == ProtocolOf(t) && TransportWritten(data[at..], t)
    ensures TransportLayer(data, at, proto).transport == t ==>
            TransportLayer(data, at, proto) == Upper(t, at + TransportLength(t), None)
  {
    match t
    case OverTcp(h) => TcpExactly(data[at..], h);
    case OverUdp(h) => UdpExactly(data[at..], h);
    case OverIcmp(h) => EchoExactly(data[at..], h, 8, 0);
    case OverIcmpv6(h) => EchoExactly(data[at..], h, 128, 129);
  }

  /** The network header at `at` leads to the transport header at `next`. */
  ghost predicate LayersWritten(data: seq<byte>, at: nat, n: Network, t: Transport, next: nat)
    requires at <= |data|
  {
    && next <= |data|
    && NetworkWritten(data, at, n, ProtocolOf(t), next)
    && TransportWritten(data[next..], t)
  }

  /** The layers decoded are these two, with the payload behind the transport header at `next`. */
  predicate Shows(l: Lower, n: Network, t: Transport, next: nat) {
    l == Lower(n, Upper(t, next + TransportLength(t), None))
  }

  lemma IPv4LayerExactly(data: seq<byte>, at: nat, h: IPv4, t: Transport, next: nat)
    requires at <= |data| && t != NoTransport
    ensures LayersWritten(data, at, OverIPv4(h), t, next) <==>
            Shows(IPv4Layer(data, at), OverIPv4(h), t, next) && next == at + h.headerLength
  {
    hide TransportLayer, IPv4Written, TransportWritten;
    IPv4Exactly(data[at..], h);
    if ParseIPv4(data[at..]) == Parsed(h, h.headerLength) && next == at + h.headerLength {
      TransportExactly(data, next, t, h.protocol);
    }
  }

  lemma IPv6LayerExactly(data: seq<byte>, at: nat, h: IPv6, t: Transport, next: nat)
    requires at <= |data| && t != NoTransport
    ensures LayersWritten(data, at, OverIPv6(h), t, next) <==>
            Shows(IPv6Layer(data, at), OverIPv6(h), t, next)
  {
    hide TransportLayer, TransportWritten, Skip, LeadsTo, IPv6Written;
    IPv6Exactly(data[at..], h);
    if ParseIPv6(data[at..]) == Parsed(h, 40) {
      var w := Skip(data, at + 40, h.nextHeader, MAX_HEADERS);
      SkipReach(data, at + 40, h.nextHeader, MAX_HEADERS);
      WalkExactly(data, at + 40, h.nextHeader, next, ProtocolOf(t));
      if w.ok {
        WalkExactly(data, at + 40, h.nextHeader, w.offset, w.header);
        TransportExactly(data, w.offset, t, w.header);
      }
    }
  }

  /** The dissection of `data` shows exactly these headers and this payload. */
  predicate Recovered(data: seq<byte>, original: nat, e: Ethernet, n: Network, t: Transport, payload: nat) {
    && payload <= |data|
    && Dissect(data, original, EthernetLink) ==
       Packet(|data|, original, EthernetLink, Some(e), n, t, DnsShown(data[payload..], t),
              Some(payload), |data| - payload, None)
  }

  /** The DNS message in a TCP or UDP segment from or to port 53, if there is one. */
  function DnsShown(payload: seq<byte>, t: Transport): Option<Dns.Info> {
    var read :=
      match t
      case OverTcp(h) => h.sourcePort == 53 || h.destinationPort == 53
      case OverUdp(h) => h.sourcePort == 53 || h.destinationPort == 53
      case _ => false;
    if read && Dns.Message(payload).Parsed? then Some(Dns.Message(payload).value) else None
  }

  lemma RecoverLayers(data: seq<byte>, original: nat, e: Ethernet, n: Network, t: Transport, payload: nat)
    requires payload <= |data| && LinkLength(e) <= |data|
    requires ParseEthernet(data) == Parsed(e, LinkLength(e))
    requires NetworkLayer(data, LinkLength(e), e.ethertype) == Lower(n, Upper(t, payload, None))
    ensures Recovered(data, original, e, n, t, payload)
  {
  }

  /** An Ethernet header (tagged or not), an IPv4 header with options and fragment offset zero or an
      IPv6 header with up to seven extension headers, and a TCP, UDP, ICMP or ICMPv6 header at
      `next`, whatever the bits and bytes are that the program ignores. */
  ghost predicate FrameWritten(data: seq<byte>, e: Ethernet, n: Network, t: Transport, next: nat) {
    && EthernetWritten(data, e) && LinkLength(e) <= |data|
    && e.ethertype == EthertypeOf(n)
    && LayersWritten(data, LinkLength(e), n, t, next)
  }

  lemma LayersRoundTrip(data: seq<byte>, at: nat, n: Network, t: Transport, next: nat)
    requires at <= |data| && LayersWritten(data, at, n, t, next)
    ensures Shows(NetworkLayer(data, at, EthertypeOf(n)), n, t, next)
  {
    match n
    case OverIPv4(h) => IPv4LayerExactly(data, at, h, t, next);
    case OverIPv6(h) => IPv6LayerExactly(data, at, h, t, next);
  }

  /** Dissecting a frame recovers all three headers. The payload starts behind a TCP or UDP header,
      and at an ICMP header. */
  lemma FrameRoundTrip(data: seq<byte>, original: nat, e: Ethernet, n: Network, t: Transport, next: nat)
    requires FrameWritten(data, e, n, t, next)
    ensures Recovered(data, original, e, n, t, next + TransportLength(t))
  {
    hide Dissect, NetworkLayer, EthernetWritten, DnsLayer, NetworkWritten, TransportWritten;
    EthernetExactly(data, e);
    LayersRoundTrip(data, LinkLength(e), n, t, next);
    RecoverLayers(data, original, e, n, t, next + TransportLength(t));
  }

  lemma LayersSound(data: seq<byte>, at: nat, ethertype: u16) returns (next: nat)
    requires at <= |data| && NetworkLayer(data, at, ethertype).upper.transport != NoTransport
    ensures var l := NetworkLayer(data, at, ethertype);
      && ethertype == EthertypeOf(l.network)
      && LayersWritten(data, at, l.network, l.upper.transport, next)
      && Shows(l, l.network, l.upper.transport, next)
  {
    hide LayersWritten, TransportLayer, Skip, Follow, TransportWritten;
    var l := NetworkLayer(data, at, ethertype);
    var t := l.upper.transport;
    if ethertype == ETHERTYPE_IPV4 {
      var h := ParseIPv4(data[at..]).value;
      H.IPv4Sound(data[at..]);
      next := at + h.headerLength;
      TransportExactly(data, next, t, h.protocol);
      IPv4LayerExactly(data, at, h, t, next);
    } else {
      var h := ParseIPv6(data[at..]).value;
      WalkIsBoundedChain(data, at + 40, h.nextHeader);
      var w := Skip(data, at + 40, h.nextHeader, MAX_HEADERS);
      next := w.offset;
      TransportExactly(data, next, t, w.header);
      IPv6LayerExactly(data, at, h, t, next);
    }
  }

  /** The converse: the headers that a dissection shows are written in the capture, one behind the
      other. */
  lemma FrameSound(data: seq<byte>, original: nat) returns (next: nat)
    requires Dissect(data, original, EthernetLink).transport != NoTransport
    ensures var p := Dissect(data, original, EthernetLink);
      && p.eth.Some? && p.payload == Some(next + TransportLength(p.transport))
      && FrameWritten(data, p.eth.value, p.network, p.transport, next)
  {
    hide NetworkLayer, DnsLayer, LayersWritten, EthernetWritten;
    var h := ParseEthernet(data).value;
    EthernetExactly(data, h);
    next := LayersSound(data, LinkLength(h), h.ethertype);
  }

  /** A frame dissects to these headers and this payload exactly when they are written in it. */
  lemma FrameExactly(data: seq<byte>, original: nat, e: Ethernet, n: Network, t: Transport, payload: nat)
    requires t != NoTransport
    ensures Recovered(data, original, e, n, t, payload) <==>
            exists next: nat :: FrameWritten(data, e, n, t, next) && payload == next + TransportLength(t)
  {
    hide Dissect, FrameWritten, DnsLayer;
    if Recovered(data, original, e, n, t, payload) {
      var next := FrameSound(data, original);
    }
    if next: nat :| FrameWritten(data, e, n, t, next) && payload == next + TransportLength(t) {
      FrameRoundTrip(data, original, e, n, t, next);
    }
  }

  lemma NetworkHeaderExactly(data: seq<byte>, at: nat, ethertype: u16, n: Network)
    requires at <= |data| && n != NoNetwork
    ensures NetworkLayer(data, at, ethertype).network == n <==>
            ethertype == EthertypeOf(n) && HeaderWritten(data[at..], n)
  {
    hide TransportLayer, Skip, IPv4Written, IPv6Written, EncodeArp;
    if ParseIPv4(data[at..]).Parsed? {
      H.IPv4Sound(data[at..]);
    }
    match n
    case OverIPv4(h) => IPv4Exactly(data[at..], h);
    case OverIPv6(h) => IPv6Exactly(data[at..], h);
    case OverArp(h) => ArpExactly(data[at..], h);
  }

  /** With or without a transport layer: an Ethernet header is shown exactly when it is written, and a
      network header exactly when it is written behind an Ethernet header that names it. */
  lemma ShownHeadersExactly(data: seq<byte>, original: nat, e: Ethernet, n: Network)
    ensures var p := Dissect(data, original, EthernetLink);
      && (p.eth == Some(e) <==> EthernetWritten(data, e))
      && (EthernetWritten(data, e) ==> LinkLength(e) <= |data|)
      && (n != NoNetwork ==>
            (p.eth == Some(e) && p.network == n <==>
               && EthernetWritten(data, e) && e.ethertype == EthertypeOf(n)
               && HeaderWritten(data[LinkLength(e)..], n)))
      && (p.network != NoNetwork ==> p.eth.Some?)
      && (p.transport == NoTransport ==> p.dns == None)
  {
    hide NetworkLayer, EthernetWritten, HeaderWritten;
    EthernetExactly(data, e);
    if ParseEthernet(data) == Parsed(e, LinkLength(e)) && n != NoNetwork {
      NetworkHeaderExactly(data, LinkLength(e), e.ethertype, n);
    }
  }

  /** A frame with an ARP packet is recovered too; its payload is the ARP packet. */
  lemma ArpFrameExactly(data: seq<byte>, original: nat, e: Ethernet, a: Arp)
    requires LinkLength(e) <= |data|
    ensures Recovered(data, original, e, OverArp(a), NoTransport, LinkLength(e)) <==>
            && EthernetWritten(data, e) && e.ethertype == ETHERTYPE_ARP
            && HeaderWritten(data[LinkLength(e)..], OverArp(a))
  {
    EthernetExactly(data, e);
    ArpExactly(data[LinkLength(e)..], a);
    if ParseEthernet(data) == Parsed(e, LinkLength(e)) && e.ethertype == ETHERTYPE_ARP &&
       HeaderWritten(data[LinkLength(e)..], OverArp(a)) {
      RecoverLayers(data, original, e, OverArp(a), NoTransport, LinkLength(e));
    }
  }
}
