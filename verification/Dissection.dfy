/** What a captured frame decodes to, layer by layer (src/packet.c). */
module Dissection {
  import opened Bytes
  import opened Headers
  import opened ExtensionChain
  import Dns = DnsMessage

  datatype Link = UnknownLink | EthernetLink

  datatype Reason =
    | EthernetTruncated
    | IPv4Truncated | IPv4Inconsistent
    | IPv6Truncated | IPv6Inconsistent | ChainInvalid
    | ArpTruncated
    | TcpTruncated | TcpInconsistent
    | UdpTruncated | UdpInconsistent
    | IcmpTruncated | Icmpv6Truncated

  datatype Network = NoNetwork | OverArp(arp: Arp) | OverIPv4(ipv4: IPv4) | OverIPv6(ipv6: IPv6)

  datatype Transport =
    | NoTransport
    | OverTcp(tcp: Tcp) | OverUdp(udp: Udp) | OverIcmp(icmp: Icmp) | OverIcmpv6(icmpv6: Icmp)

  /** `ns_packet_t`: a layer is present exactly when its protocol tag is set. The payload pointer is
      an offset into the capture, or None for NULL. */
  datatype Packet = Packet(capturedLength: nat, originalLength: nat, link: Link,
                           eth: Option<Ethernet>, network: Network, transport: Transport,
                           dns: Option<Dns.Info>, payload: Option<nat>, payloadLength: nat,
                           malformed: Option<Reason>)

  const IP_ICMP := 1
  const IP_TCP := 6
  const IP_UDP := 17
  const IP_ICMPV6 := 58

  /** What a layer and those above it contribute; `payload` is where the innermost payload starts. */
  datatype Upper = Upper(transport: Transport, payload: nat, malformed: Option<Reason>)

  datatype Lower = Lower(network: Network, upper: Upper)

  function Nothing(offset: nat): Upper {
    Upper(NoTransport, offset, None)
  }

  function Rejected(offset: nat, reason: Reason): Upper {
    Upper(NoTransport, offset, Some(reason))
  }

  function TransportLayer(data: seq<byte>, offset: nat, proto: byte): (u: Upper)
    requires offset <= |data|
    ensures offset <= u.payload <= |data|
  {
    var rest := data[offset..];
    if proto == IP_TCP then
      match ParseTcp(rest)
      case Parsed(h, len) => Upper(OverTcp(h), offset + len, None)
      case Failed(s) => Rejected(offset, if s == Truncated then TcpTruncated else TcpInconsistent)
    else if proto == IP_UDP then
      match ParseUdp(rest)
      case Parsed(h, len) => Upper(OverUdp(h), offset + len, None)
      case Failed(s) => Rejected(offset, if s == Truncated then UdpTruncated else UdpInconsistent)
    else if proto == IP_ICMP then
      match ParseIcmp(rest)
      case Parsed(h, _) => Upper(OverIcmp(h), offset, None)
      case Failed(_) => Rejected(offset, IcmpTruncated)
    else if proto == IP_ICMPV6 then
      match ParseIcmpv6(rest)
      case Parsed(h, _) => Upper(OverIcmpv6(h), offset, None)
      case Failed(_) => Rejected(offset, Icmpv6Truncated)
    else Nothing(offset)
  }

  /** What lies behind an IPv4 header; the transport layer of a non-initial fragment is not read. */
  function BehindIPv4(data: seq<byte>, offset: nat, parsed: Parsed<IPv4>): (l: Lower)
    requires offset <= |data| && (parsed.Parsed? ==> offset + parsed.next <= |data|)
    ensures offset <= l.upper.payload <= |data|
  {
    match parsed
    case Failed(s) => Lower(NoNetwork, Rejected(offset, if s == Truncated then IPv4Truncated else IPv4Inconsistent))
    case Parsed(h, len) =>
      Lower(OverIPv4(h),
            if h.isFragment && !h.isInitialFragment then Nothing(offset + len)
            else TransportLayer(data, offset + len, h.protocol))
  }

  function IPv4Layer(data: seq<byte>, offset: nat): (l: Lower)
    requires offset <= |data|
    ensures offset <= l.upper.payload <= |data|
  {
    BehindIPv4(data, offset, ParseIPv4(data[offset..]))
  }

  function IPv6Layer(data: seq<byte>, offset: nat): (l: Lower)
    requires offset <= |data|
    ensures offset <= l.upper.payload <= |data|
  {
    match ParseIPv6(data[offset..])
    case Failed(s) => Lower(NoNetwork, Rejected(offset, if s == Truncated then IPv6Truncated else IPv6Inconsistent))
    case Parsed(h, len) =>
      SkipReach(data, offset + len, h.nextHeader, MAX_HEADERS);
      var w := Skip(data, offset + len, h.nextHeader, MAX_HEADERS);
      Lower(OverIPv6(h),
            if w.ok then TransportLayer(data, w.offset, w.header) else Rejected(w.offset, ChainInvalid))
  }

  function ArpLayer(data: seq<byte>, offset: nat): (l: Lower)
    requires offset <= |data|
    ensures offset <= l.upper.payload <= |data|
  {
    match ParseArp(data[offset..])
    case Parsed(h, _) => Lower(OverArp(h), Nothing(offset))
    case Failed(s) => Lower(NoNetwork, if s == Truncated then Rejected(offset, ArpTruncated) else Nothing(offset))
  }

  function NetworkLayer(data: seq<byte>, offset: nat, ethertype: u16): (l: Lower)
    requires offset <= |data|
    ensures offset <= l.upper.payload <= |data|
  {
    if ethertype == ETHERTYPE_IPV4 then IPv4Layer(data, offset)
    else if ethertype == ETHERTYPE_IPV6 then IPv6Layer(data, offset)
    else if ethertype == ETHERTYPE_ARP then ArpLayer(data, offset)
    else Lower(NoNetwork, Nothing(offset))
  }

  /** A segment to or from port 53 is read as DNS. */
  predicate CarriesDns(t: Transport) {
    match t
    case OverTcp(h) => h.sourcePort == 53 || h.destinationPort == 53
    case OverUdp(h) => h.sourcePort == 53 || h.destinationPort == 53
    case _ => false
  }

  function DnsLayer(data: seq<byte>, offset: nat, carried: bool): Option<Dns.Info>
    requires offset <= |data|
  {
    if !carried then None
    else
      match Dns.Message(data[offset..])
      case Parsed(info, _) => Some(info)
      case Failed(_) => None
  }

  /** The packet before any layer is decoded: the payload is the whole capture. */
  function Blank(data: seq<byte>, originalLength: nat, link: Link): Packet {
    Packet(|data|, originalLength, link, None, NoNetwork, NoTransport, None, Some(0), |data|, None)
  }

  function WithUpper(p: Packet, data: seq<byte>, u: Upper): Packet
    requires u.payload <= |data|
  {
    p.(transport := u.transport, dns := DnsLayer(data, u.payload, CarriesDns(u.transport)),
       payload := Some(u.payload), payloadLength := |data| - u.payload, malformed := u.malformed)
  }

  function WithLower(p: Packet, data: seq<byte>, l: Lower): Packet
    requires l.upper.payload <= |data|
  {
    WithUpper(p.(network := l.network), data, l.upper)
  }

  function Dissect(data: seq<byte>, originalLength: nat, link: Link): Packet {
    var blank := Blank(data, originalLength, link);
    if link != EthernetLink then blank
    else
      match ParseEthernet(data)
      case Failed(_) => blank.(malformed := Some(EthernetTruncated))
      case Parsed(h, len) => WithLower(blank.(eth := Some(h)), data, NetworkLayer(data, len, h.ethertype))
  }
}
