/** What `ns_packet_parse` (src/packet.c) guarantees for every capture. */
module DissectionTheorems {
  import opened Bytes
  import opened Headers
  import opened ExtensionChain
  import opened Dissection
  import opened HeaderTheorems
  import opened DnsMessageTheorems
  import Dns = DnsMessage

  // ----- Offsets and conservation of bytes -----

  function LinkLength(h: Ethernet): nat {
    if h.hasVlan then 18 else 14
  }

  /** The length of the network header, with IPv6 extension headers, that starts at `offset`. */
  function NetworkLength(data: seq<byte>, offset: nat, n: Network): int {
    match n
    case OverIPv4(h) => h.headerLength
    case OverIPv6(h) => Follow(data, offset + 40, h.nextHeader).offset - offset
    case _ => 0
  }

  function TransportLength(t: Transport): nat {
    match t
    case OverTcp(h) => h.headerLength
    case OverUdp(_) => 8
    case _ => 0
  }

  /** Where the payload starts, given the layers in front of it. */
  lemma TransportPayload(data: seq<byte>, offset: nat, proto: byte)
    requires offset <= |data|
    ensures var u := TransportLayer(data, offset, proto);
      u.payload == offset + TransportLength(u.transport)
  {
  }

  lemma NetworkPayload(data: seq<byte>, offset: nat, ethertype: u16)
    requires offset <= |data|
    ensures var l := NetworkLayer(data, offset, ethertype);
      l.upper.transport != NoTransport ==>
        l.upper.payload == offset + NetworkLength(data, offset, l.network) + TransportLength(l.upper.transport)
  {
    if ethertype == ETHERTYPE_IPV4 {
      var h := ParseIPv4(data[offset..]);
      if h.Parsed? {
        TransportPayload(data, offset + h.next, h.value.protocol);
      }
    } else if ethertype == ETHERTYPE_IPV6 {
      var h := ParseIPv6(data[offset..]);
      if h.Parsed? {
        SkipFollows(data, offset + 40, h.value.nextHeader, MAX_HEADERS);
        SkipReach(data, offset + 40, h.value.nextHeader, MAX_HEADERS);
        var w := Skip(data, offset + 40, h.value.nextHeader, MAX_HEADERS);
        TransportPayload(data, w.offset, w.header);
      }
    }
  }

  /** The payload is always a suffix of the capture, never NULL. Under a transport header the link,
      network and transport headers and the payload account for every captured byte. */
  lemma EveryByteAccounted(data: seq<byte>, original: nat, link: Link)
    ensures var p := Dissect(data, original, link);
      && p.payload.Some? && p.payload.value + p.payloadLength == p.capturedLength == |data|
      && (p.transport != NoTransport ==>
            && p.eth.Some?
            && var l := LinkLength(p.eth.value);
               l + NetworkLength(data, l, p.network) + TransportLength(p.transport) + p.payloadLength
               == |data|)
  {
    var h := ParseEthernet(data);
    if link == EthernetLink && h.Parsed? {
      NetworkPayload(data, h.next, h.value.ethertype);
    }
  }

  // ----- The shape of a decoded packet -----

  predicate WellAddressed(n: Network) {
    match n
    case OverIPv4(h) => |h.source| == 4 && |h.destination| == 4
    case OverIPv6(h) => |h.source| == 16 && |h.destination| == 16
    case OverArp(h) => |h.senderIp| == 4 && |h.targetIp| == 4
    case NoNetwork => true
  }

  /** How the layers of a decoded packet depend on each other. */
  predicate WellLayered(p: Packet) {
    && (p.dns.Some? ==> CarriesDns(p.transport))
    && (!p.transport.NoTransport? ==> (p.network.OverIPv4? || p.network.OverIPv6?) && p.malformed.None?)
    && (p.network.OverIPv4? && p.network.ipv4.fragmentOffset != 0 ==> p.transport.NoTransport?)
    && (!p.network.NoNetwork? ==> p.eth.Some?)
    && (p.eth.Some? ==> p.link == EthernetLink)
    && (p.link == EthernetLink && p.eth.None? ==> p.malformed.Some?)
    && WellAddressed(p.network)
  }

  predicate LowerWellLayered(l: Lower) {
    && (!l.upper.transport.NoTransport? ==> l.network.OverIPv4? || l.network.OverIPv6?)
    && (!l.upper.transport.NoTransport? ==> l.upper.malformed.None?)
    && (l.network.OverIPv4? && l.network.ipv4.fragmentOffset != 0 ==> l.upper.transport.NoTransport?)
    && WellAddressed(l.network)
  }

  lemma TransportVerdict(data: seq<byte>, offset: nat, proto: byte)
    requires offset <= |data|
    ensures var u := TransportLayer(data, offset, proto);
      !u.transport.NoTransport? ==> u.malformed.None?
  {
  }

  lemma NetworkIsWellLayered(data: seq<byte>, offset: nat, ethertype: u16)
    requires offset <= |data|
    ensures LowerWellLayered(NetworkLayer(data, offset, ethertype))
  {
    if ethertype == ETHERTYPE_IPV4 {
      var h := ParseIPv4(data[offset..]);
      if h.Parsed? {
        TransportVerdict(data, offset + h.next, h.value.protocol);
      }
    } else if ethertype == ETHERTYPE_IPV6 {
      var h := ParseIPv6(data[offset..]);
      if h.Parsed? {
        SkipReach(data, offset + 40, h.value.nextHeader, MAX_HEADERS);
        var w := Skip(data, offset + 40, h.value.nextHeader, MAX_HEADERS);
        TransportVerdict(data, w.offset, w.header);
      }
    }
  }

  /** Every decoded packet is well layered: no DNS without a port 53 segment, no transport layer
      without an IP layer, none behind a non-initial IPv4 fragment, no undecoded Ethernet frame
      without a verdict. */
  lemma DissectionIsWellLayered(data: seq<byte>, original: nat, link: Link)
    ensures WellLayered(Dissect(data, original, link))
  {
    var h := ParseEthernet(data);
    if link == EthernetLink && h.Parsed? {
      NetworkIsWellLayered(data, h.next, h.value.ethertype);
    }
  }

  // ----- Fragments -----

  /** An IPv4 packet's transport header is read exactly when its fragment offset is zero: in whole
      packets and in initial fragments. */
  lemma IPv4FragmentRule(data: seq<byte>, offset: nat)
    requires offset <= |data| && ParseIPv4(data[offset..]).Parsed?
    ensures var h := ParseIPv4(data[offset..]).value;
      && offset + h.headerLength <= |data|
      && IPv4Layer(data, offset).upper ==
         if h.fragmentOffset == 0 then TransportLayer(data, offset + h.headerLength, h.protocol)
         else Nothing(offset + h.headerLength)
  {
    hide TransportLayer;
  }

  /** There is no such rule for IPv6: nothing that a Fragment header says about its fragment (offset,
      more-fragments flag, identification) changes what is decoded, also behind a non-initial one. */
  lemma IPv6FragmentsLookWhole(data: seq<byte>, other: seq<byte>, offset: nat, fragment: nat)
    requires offset + 40 <= |data| && ParseIPv6(data[offset..]).Parsed?
    requires Visits(data, offset + 40, ParseIPv6(data[offset..]).value.nextHeader, fragment)
    requires SameButFragment(data, other, fragment)
    ensures IPv6Layer(other, offset) == IPv6Layer(data, offset)
  {
    var header := ParseIPv6(data[offset..]).value.nextHeader;
    VisitsBehind(data, offset + 40, header, fragment);
    SameHeader(data, other, offset);
    SkipIgnoresFragment(data, other, offset + 40, header, fragment, MAX_HEADERS);
    SkipReach(data, offset + 40, header, MAX_HEADERS);
    var w := Skip(data, offset + 40, header, MAX_HEADERS);
    if w.ok {
      assert data[w.offset..] == other[w.offset..];
      SameTransport(data, other, w.offset, w.header);
    }
  }

  lemma SameHeader(data: seq<byte>, other: seq<byte>, offset: nat)
    requires |data| == |other| && offset + 40 <= |data|
    requires forall i :: offset <= i < offset + 40 ==> data[i] == other[i]
    ensures ParseIPv6(other[offset..]) == ParseIPv6(data[offset..])
  {
    var part, whole := data[offset..offset + 40], data[offset..];
    assert part == other[offset..offset + 40];
    assert part == whole[..40] == other[offset..][..40];
    assert whole[8..24] == part[8..24] == other[offset..][8..24];
    assert whole[24..40] == part[24..40] == other[offset..][24..40];
    assert forall i :: 0 <= i < 8 ==> whole[i] == part[i] == other[offset..][i];
  }

  lemma SameTransport(data: seq<byte>, other: seq<byte>, offset: nat, proto: byte)
    requires offset <= |data| == |other| && data[offset..] == other[offset..]
    ensures TransportLayer(data, offset, proto) == TransportLayer(other, offset, proto)
  {
    hide ParseTcp, ParseUdp, ParseIcmp, ParseIcmpv6;
  }

  // ----- More captured bytes -----

  predicate Inconsistent(r: Option<Reason>) {
    r.Some? && (r.value.IPv4Inconsistent? || r.value.IPv6Inconsistent? ||
                r.value.TcpInconsistent? || r.value.UdpInconsistent?)
  }

  predicate DnsGrows(part: Option<Dns.Info>, whole: Option<Dns.Info>) {
    part.Some? ==> whole.Some? && InfoRefines(part.value, whole.value)
  }

  /** How the layers seen in a capture relate to those seen in a longer capture. */
  predicate UpperGrows(part: Upper, whole: Upper) {
    && (part.transport != NoTransport || part.malformed == None ==> whole == part)
    && (Inconsistent(part.malformed) ==> whole.malformed == part.malformed)
  }

  predicate LowerGrows(part: Lower, whole: Lower) {
    && (part.network != NoNetwork || part.upper.malformed == None ==> whole.network == part.network)
    && UpperGrows(part.upper, whole.upper)
  }

  lemma SuffixGrows(data: seq<byte>, longer: seq<byte>, offset: nat)
    requires data <= longer && offset <= |data|
    ensures data[offset..] <= longer[offset..]
  {
    assert longer[offset..][..|data| - offset] == data[offset..];
  }

  lemma TransportGrows(data: seq<byte>, longer: seq<byte>, offset: nat, proto: byte)
    requires data <= longer && offset <= |data|
    ensures UpperGrows(TransportLayer(data, offset, proto), TransportLayer(longer, offset, proto))
  {
    SuffixGrows(data, longer, offset);
    var part, whole := data[offset..], longer[offset..];
    if proto == IP_TCP {
      if ParseTcp(part) != Failed(Truncated) { TcpStable(part, whole); }
    } else if proto == IP_UDP {
      if ParseUdp(part) != Failed(Truncated) { UdpStable(part, whole); }
    } else if proto == IP_ICMP {
      if ParseIcmp(part) != Failed(Truncated) { EchoStable(part, whole, 8, 0); }
    } else if proto == IP_ICMPV6 {
      if ParseIcmpv6(part) != Failed(Truncated) { EchoStable(part, whole, 128, 129); }
    }
  }

  lemma BehindIPv4Grows(data: seq<byte>, longer: seq<byte>, offset: nat,
                        part: Parsed<IPv4>, whole: Parsed<IPv4>)
    requires data <= longer && offset <= |data|
    requires part.Parsed? ==> offset + part.next <= |data|
    requires whole.Parsed? ==> offset + whole.next <= |longer|
    requires part != Failed(Truncated) ==> whole == part
    ensures LowerGrows(BehindIPv4(data, offset, part), BehindIPv4(longer, offset, whole))
  {
    if part.Parsed? {
      TransportGrows(data, longer, offset + part.next, part.value.protocol);
    }
  }

  lemma IPv4Grows(data: seq<byte>, longer: seq<byte>, offset: nat)
    requires data <= longer && offset <= |data|
    ensures LowerGrows(IPv4Layer(data, offset), IPv4Layer(longer, offset))
  {
    SuffixGrows(data, longer, offset);
    var part, whole := ParseIPv4(data[offset..]), ParseIPv4(longer[offset..]);
    if part != Failed(Truncated) {
      IPv4Stable(data[offset..], longer[offset..]);
    }
    BehindIPv4Grows(data, longer, offset, part, whole);
  }

  lemma IPv6Grows(data: seq<byte>, longer: seq<byte>, offset: nat)
    requires data <= longer && offset <= |data|
    ensures LowerGrows(IPv6Layer(data, offset), IPv6Layer(longer, offset))
  {
    SuffixGrows(data, longer, offset);
    var part := ParseIPv6(data[offset..]);
    if part != Failed(Truncated) {
      IPv6Stable(data[offset..], longer[offset..]);
    }
    if part.Parsed? {
      var at, header := offset + part.next, part.value.nextHeader;
      SkipStable(data, longer, at, header, MAX_HEADERS);
      SkipReach(data, at, header, MAX_HEADERS);
      var w := Skip(data, at, header, MAX_HEADERS);
      if w.ok {
        TransportGrows(data, longer, w.offset, w.header);
      }
    }
  }

  lemma NetworkGrows(data: seq<byte>, longer: seq<byte>, offset: nat, ethertype: u16)
    requires data <= longer && offset <= |data|
    ensures LowerGrows(NetworkLayer(data, offset, ethertype), NetworkLayer(longer, offset, ethertype))
  {
    if ethertype == ETHERTYPE_IPV4 {
      IPv4Grows(data, longer, offset);
    } else if ethertype == ETHERTYPE_IPV6 {
      IPv6Grows(data, longer, offset);
    } else if ethertype == ETHERTYPE_ARP {
      SuffixGrows(data, longer, offset);
      if ParseArp(data[offset..]) != Failed(Truncated) {
        ArpStable(data[offset..], longer[offset..]);
      }
    }
  }

  lemma DnsLayerGrows(data: seq<byte>, longer: seq<byte>, offset: nat, carried: bool)
    requires data <= longer && offset <= |data|
    ensures DnsGrows(DnsLayer(data, offset, carried), DnsLayer(longer, offset, carried))
  {
    SuffixGrows(data, longer, offset);
    if Dns.Message(data[offset..]).Parsed? {
      MessageStable(data[offset..], longer[offset..]);
    }
  }

  /** Snapshot-length monotonicity. A layer decoded from a shorter capture of a frame is decoded,
      with the same fields, from a longer one; a capture that is not malformed stays so, with the
      same layers and the same payload start; an inconsistency stays the verdict; DNS can only
      appear, and an answer's text can only replace its fallback. */
  predicate PacketGrows(part: Packet, whole: Packet) {
    && (part.eth.Some? || part.malformed == None ==> whole.eth == part.eth)
    && (part.network != NoNetwork || part.malformed == None ==> whole.network == part.network)
    && (part.transport != NoTransport || part.malformed == None ==>
          whole.transport == part.transport && whole.payload == part.payload && whole.malformed == None)
    && DnsGrows(part.dns, whole.dns)
    && (Inconsistent(part.malformed) ==> whole.malformed == part.malformed)
  }

  lemma LayersGrow(p: Packet, q: Packet, data: seq<byte>, longer: seq<byte>, part: Lower, whole: Lower)
    requires data <= longer && part.upper.payload <= |data| && whole.upper.payload <= |longer|
    requires LowerGrows(part, whole) && LowerWellLayered(part) && p.eth == q.eth
    ensures PacketGrows(WithLower(p, data, part), WithLower(q, longer, whole))
  {
    if CarriesDns(part.upper.transport) {
      DnsLayerGrows(data, longer, part.upper.payload, true);
    }
  }

  lemma DissectionGrows(data: seq<byte>, longer: seq<byte>, original: nat, link: Link)
    requires data <= longer
    ensures PacketGrows(Dissect(data, original, link), Dissect(longer, original, link))
  {
    var h := ParseEthernet(data);
    if link == EthernetLink && h.Parsed? {
      EthernetStable(data, longer);
      NetworkGrows(data, longer, h.next, h.value.ethertype);
      NetworkIsWellLayered(data, h.next, h.value.ethertype);
      LayersGrow(Blank(data, original, link).(eth := Some(h.value)),
                 Blank(longer, original, link).(eth := Some(h.value)), data, longer,
                 NetworkLayer(data, h.next, h.value.ethertype), NetworkLayer(longer, h.next, h.value.ethertype));
    }
  }

  /** An extension chain that is too long, rather than cut off, also stays the verdict. */
  lemma LongChainStaysInvalid(data: seq<byte>, longer: seq<byte>, offset: nat)
    requires data <= longer && offset <= |data|
    requires ParseIPv6(data[offset..]).Parsed?
    requires Follow(data, offset + 40, ParseIPv6(data[offset..]).value.nextHeader).count >= MAX_HEADERS
    ensures IPv6Layer(longer, offset) == IPv6Layer(data, offset)
    ensures IPv6Layer(data, offset).upper.malformed == Some(ChainInvalid)
  {
    var header := ParseIPv6(data[offset..]).value.nextHeader;
    SuffixGrows(data, longer, offset);
    IPv6Stable(data[offset..], longer[offset..]);
    SkipStable(data, longer, offset + 40, header, MAX_HEADERS);
    SkipFollows(data, offset + 40, header, MAX_HEADERS);
  }
}
