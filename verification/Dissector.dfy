/** The stages of src/packet.c, which fill one packet object step by step. Every stage is entered
    with its offset inside the capture. */
module Dissector {
  import opened Bytes
  import opened Headers
  import opened ExtensionChain
  import opened Dissection
  import Dns = DnsMessage
  import DnsParser

  class PacketBuffer {
    var capturedLength: nat
    var originalLength: nat
    var link: Link
    var eth: Option<Ethernet>
    var network: Network
    var transport: Transport
    var dns: Option<Dns.Info>
    var payload: Option<nat>
    var payloadLength: nat
    var malformed: Option<Reason>

    function View(): Packet
      reads this
    {
      Packet(capturedLength, originalLength, link, eth, network, transport, dns, payload,
             payloadLength, malformed)
    }

    /** Nothing above the network layer is decoded yet and no verdict is given. */
    predicate Undecided()
      reads this
    {
      transport == NoTransport && dns == None && malformed == None
    }

    method SetPayload(data: seq<byte>, offset: nat)
      modifies this`payload, this`payloadLength
      ensures offset <= |data| ==> payload == Some(offset) && payloadLength == |data| - offset
      ensures offset > |data| ==> payload == None && payloadLength == 0
    {
      if offset > |data| {
        payload, payloadLength := None, 0;
      } else {
        payload, payloadLength := Some(offset), |data| - offset;
      }
    }

    method ParseDnsIfApplicable(data: seq<byte>, offset: nat, source: u16, destination: u16)
      requires offset <= |data| && dns == None
      modifies this`dns
      ensures dns == DnsLayer(data, offset, source == 53 || destination == 53)
    {
      if source != 53 && destination != 53 {
        return;
      }
      if offset > |data| {
        return;
      }
      var status, info := DnsParser.ParseDns(data[offset..]);
      if status == Ok {
        dns := info;
      }
    }

    method ParseTransport(data: seq<byte>, offset: nat, proto: byte)
      requires offset <= |data| && Undecided()
      requires payload == Some(offset) && payloadLength == |data| - offset
      modifies this`transport, this`dns, this`payload, this`payloadLength, this`malformed
      ensures View() == WithUpper(old(View()), data, TransportLayer(data, offset, proto))
    {
      hide ParseIcmp, ParseIcmpv6, ParseTcp, U16;
      if proto == IP_TCP {
        match ParseTcp(data[offset..])
        case Parsed(h, len) =>
          transport := OverTcp(h);
          SetPayload(data, offset + len);
          ParseDnsIfApplicable(data, offset + len, h.sourcePort, h.destinationPort);
        case Failed(s) => malformed := Some(if s == Truncated then TcpTruncated else TcpInconsistent);
      } else if proto == IP_UDP {
        match ParseUdp(data[offset..])
        case Parsed(h, _) =>
          transport := OverUdp(h);
          SetPayload(data, offset + 8);
          ParseDnsIfApplicable(data, offset + 8, h.sourcePort, h.destinationPort);
        case Failed(s) => malformed := Some(if s == Truncated then UdpTruncated else UdpInconsistent);
      } else if proto == IP_ICMP {
        match ParseIcmp(data[offset..])
        case Parsed(h, _) => transport := OverIcmp(h);
        case Failed(_) => malformed := Some(IcmpTruncated);
      } else if proto == IP_ICMPV6 {
        match ParseIcmpv6(data[offset..])
        case Parsed(h, _) => transport := OverIcmpv6(h);
        case Failed(_) => malformed := Some(Icmpv6Truncated);
      }
    }

    method ParseIPv4Stage(data: seq<byte>, offset: nat)
      requires offset <= |data| && Undecided() && network == NoNetwork
      requires payload == Some(offset) && payloadLength == |data| - offset
      modifies this`network, this`transport, this`dns, this`payload, this`payloadLength, this`malformed
      ensures View() == WithLower(old(View()), data, IPv4Layer(data, offset))
    {
      hide TransportLayer, ParseIPv4;
      match ParseIPv4(data[offset..])
      case Failed(s) => malformed := Some(if s == Truncated then IPv4Truncated else IPv4Inconsistent);
      case Parsed(h, len) =>
        network := OverIPv4(h);
        SetPayload(data, offset + len);
        if h.isFragment && !h.isInitialFragment {
          return;
        }
        ParseTransport(data, offset + len, h.protocol);
    }

    method ParseIPv6Stage(data: seq<byte>, offset: nat)
      requires offset <= |data| && Undecided() && network == NoNetwork
      requires payload == Some(offset) && payloadLength == |data| - offset
      modifies this`network, this`transport, this`dns, this`payload, this`payloadLength, this`malformed
      ensures View() == WithLower(old(View()), data, IPv6Layer(data, offset))
    {
      hide ParseIPv6, TransportLayer, Skip;
      match ParseIPv6(data[offset..])
      case Failed(s) => malformed := Some(if s == Truncated then IPv6Truncated else IPv6Inconsistent);
      case Parsed(h, len) =>
        network := OverIPv6(h);
        var ok, extOffset, header := SkipExtensionHeaders(data, offset + len, h.nextHeader, MAX_HEADERS);
        SkipReach(data, offset + len, h.nextHeader, MAX_HEADERS);
        if !ok {
          malformed := Some(ChainInvalid);
          SetPayload(data, extOffset);
          return;
        }
        SetPayload(data, extOffset);
        ParseTransport(data, extOffset, header);
    }

    method ParseArpStage(data: seq<byte>, offset: nat)
      requires offset <= |data| && Undecided() && network == NoNetwork
      requires payload == Some(offset) && payloadLength == |data| - offset
      modifies this`network, this`payload, this`payloadLength, this`malformed
      ensures View() == WithLower(old(View()), data, ArpLayer(data, offset))
    {
      match ParseArp(data[offset..])
      case Parsed(h, _) => network := OverArp(h);
      case Failed(s) =>
        if s == Truncated {
          malformed := Some(ArpTruncated);
        }
      SetPayload(data, offset);
    }

    /** `ns_packet_parse`, on a zeroed packet. */
    constructor (data: seq<byte>, original: nat, linkType: Link)
      ensures View() == Dissect(data, original, linkType)
    {
      capturedLength, originalLength, link := |data|, original, linkType;
      eth, network, transport, dns, malformed := None, NoNetwork, NoTransport, None, None;
      payload, payloadLength := Some(0), |data|;
      new;
      if link != EthernetLink {
        return;
      }
      match ParseEthernet(data)
      case Failed(_) => malformed := Some(EthernetTruncated);
      case Parsed(h, offset) =>
        eth := Some(h);
        SetPayload(data, offset);
        if h.ethertype == ETHERTYPE_IPV4 {
          ParseIPv4Stage(data, offset);
        } else if h.ethertype == ETHERTYPE_IPV6 {
          ParseIPv6Stage(data, offset);
        } else if h.ethertype == ETHERTYPE_ARP {
          ParseArpStage(data, offset);
        }
    }
  }
}
