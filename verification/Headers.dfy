/** The link, network and transport header parsers of src/protocols/, each with the encoder that it
    inverts. A parser reads one header at the front of `data`; `next` is the header's length. Bits
    that a parser ignores are a parameter of its encoder. */
module Headers {
  import opened Bytes

  // ----- Ethernet, with an optional 802.1Q tag (ethernet.c) -----

  const ETHERTYPE_IPV4 := 0x0800
  const ETHERTYPE_ARP := 0x0806
  const ETHERTYPE_VLAN := 0x8100
  const ETHERTYPE_IPV6 := 0x86DD

  datatype Ethernet =
    Ethernet(destination: seq<byte>, source: seq<byte>, ethertype: u16, hasVlan: bool, vlanId: u16)

  function ParseEthernet(data: seq<byte>): (r: Parsed<Ethernet>)
    ensures r.Parsed? ==> r.next <= |data|
  {
    if !InBounds(|data|, 0, 14) then Failed(Truncated)
    else if U16(data, 12) != ETHERTYPE_VLAN then
      Parsed(Ethernet(data[..6], data[6..12], U16(data, 12), false, 0), 14)
    else if !InBounds(|data|, 0, 18) then Failed(Truncated)
    else Parsed(Ethernet(data[..6], data[6..12], U16(data, 16), true, U16(data, 14) % 0x1000), 18)
  }

  /** The values an Ethernet header can carry: a plain header's type is not the tag's, and the tag
      is 12 bits wide. */
  predicate ValidEthernet(h: Ethernet) {
    && |h.destination| == 6 && |h.source| == 6
    && if h.hasVlan then h.vlanId < 0x1000 else h.vlanId == 0 && h.ethertype != ETHERTYPE_VLAN
  }

  /** `priority` is the tag's ignored priority and drop-eligible field. */
  function EncodeEthernet(h: Ethernet, priority: nat): seq<byte>
    requires ValidEthernet(h) && priority < 16
  {
    if h.hasVlan then
      h.destination + h.source + Put16(ETHERTYPE_VLAN) + Put16(priority * 0x1000 + h.vlanId) + Put16(h.ethertype)
    else h.destination + h.source + Put16(h.ethertype)
  }

  // ----- IPv4 (ipv4.c) -----

  datatype IPv4 = IPv4(version: byte, ihl: byte, dscp: byte, ecn: byte, totalLength: u16,
                       identification: u16, flagDf: bool, flagMf: bool, fragmentOffset: u16,
                       ttl: byte, protocol: byte, checksum: u16,
                       source: seq<byte>, destination: seq<byte>,
                       headerLength: nat, isFragment: bool, isInitialFragment: bool)

  function ParseIPv4(data: seq<byte>): (r: Parsed<IPv4>)
    ensures r.Parsed? ==> r.next <= |data|
  {
    if !InBounds(|data|, 0, 20) then Failed(Truncated)
    else if data[0] / 16 != 4 then Failed(Malformed)
    else if data[0] % 16 < 5 then Failed(Malformed)
    else
      var len := data[0] % 16 * 4;
      if !InBounds(|data|, 0, len) then Failed(Truncated)
      else if U16(data, 2) < len then Failed(Malformed)
      else
        var frag := U16(data, 6);
        var mf, off := frag / 0x2000 % 2 == 1, frag % 0x2000;
        Parsed(IPv4(data[0] / 16, data[0] % 16, data[1] / 4, data[1] % 4, U16(data, 2), U16(data, 4),
                    frag / 0x4000 % 2 == 1, mf, off, data[8], data[9], U16(data, 10),
                    data[12..16], data[16..20], len, mf || off != 0, (mf || off != 0) && off == 0),
               len)
  }

  predicate ValidIPv4(h: IPv4) {
    && h.version == 4 && 5 <= h.ihl < 16 && h.dscp < 64 && h.ecn < 4
    && h.headerLength == h.ihl * 4 <= h.totalLength
    && h.fragmentOffset < 0x2000
    && h.isFragment == (h.flagMf || h.fragmentOffset != 0)
    && h.isInitialFragment == (h.isFragment && h.fragmentOffset == 0)
    && |h.source| == 4 && |h.destination| == 4
  }

  function Bit(b: bool): nat { if b then 1 else 0 }

  /** `reserved` is the ignored first flag bit. */
  function EncodeIPv4(h: IPv4, reserved: bool): seq<byte>
    requires ValidIPv4(h)
  {
    [64 + h.ihl] + [h.dscp * 4 + h.ecn] + Put16(h.totalLength) + Put16(h.identification) +
    Put16(Bit(reserved) * 0x8000 + Bit(h.flagDf) * 0x4000 + Bit(h.flagMf) * 0x2000 + h.fragmentOffset) +
    [h.ttl] + [h.protocol] + Put16(h.checksum) + h.source + h.destination
  }

  // ----- IPv6 (ipv6.c) -----

  datatype IPv6 = IPv6(version: byte, trafficClass: byte, flowLabel: u32, payloadLength: u16,
                       nextHeader: byte, hopLimit: byte,
                       source: seq<byte>, destination: seq<byte>, headerLength: nat)

  function ParseIPv6(data: seq<byte>): (r: Parsed<IPv6>)
    ensures r.Parsed? ==> r.next <= |data|
  {
    if !InBounds(|data|, 0, 40) then Failed(Truncated)
    else
      var first := U32(data, 0);
      if first / 0x1000_0000 != 6 then Failed(Malformed)
      else
        Parsed(IPv6(6, first / 0x10_0000 % 0x100, first % 0x10_0000, U16(data, 4), data[6], data[7],
                    data[8..24], data[24..40], 40),
               40)
  }

  predicate ValidIPv6(h: IPv6) {
    && h.version == 6 && h.flowLabel < 0x10_0000 && h.headerLength == 40
    && |h.source| == 16 && |h.destination| == 16
  }

  function EncodeIPv6(h: IPv6): seq<byte>
    requires ValidIPv6(h)
  {
    Put32(0x6000_0000 + h.trafficClass * 0x10_0000 + h.flowLabel) + Put16(h.payloadLength) +
    [h.nextHeader] + [h.hopLimit] + h.source + h.destination
  }

  // ----- ARP (arp.c) -----

  datatype Arp = Arp(operation: u16, senderMac: seq<byte>, senderIp: seq<byte>,
                     targetMac: seq<byte>, targetIp: seq<byte>)

  function ParseArp(data: seq<byte>): (r: Parsed<Arp>)
    ensures r.Parsed? ==> r.next <= |data|
  {
    if !InBounds(|data|, 0, 8) then Failed(Truncated)
    else if U16(data, 0) != 1 || U16(data, 2) != 0x0800 || data[4] != 6 || data[5] != 4 then
      Failed(Unsupported)
    else if !InBounds(|data|, 8, 20) then Failed(Truncated)
    else Parsed(Arp(U16(data, 6), data[8..14], data[14..18], data[18..24], data[24..28]), 28)
  }

  predicate ValidArp(h: Arp) {
    |h.senderMac| == |h.targetMac| == 6 && |h.senderIp| == |h.targetIp| == 4
  }

  function EncodeArp(h: Arp): seq<byte> {
    Put16(1) + Put16(0x0800) + [6] + [4] + Put16(h.operation) +
    h.senderMac + h.senderIp + h.targetMac + h.targetIp
  }

  // ----- TCP (tcp.c) -----

  datatype Tcp = Tcp(sourcePort: u16, destinationPort: u16, sequenceNumber: u32, ackNumber: u32,
                     dataOffset: byte, flags: byte, window: u16, checksum: u16, urgent: u16,
                     headerLength: nat)

  function ParseTcp(data: seq<byte>): (r: Parsed<Tcp>)
    ensures r.Parsed? ==> r.next <= |data|
  {
    if !InBounds(|data|, 0, 20) then Failed(Truncated)
    else if data[12] / 16 < 5 then Failed(Malformed)
    else
      var len := data[12] / 16 * 4;
      if !InBounds(|data|, 0, len) then Failed(Truncated)
      else
        Parsed(Tcp(U16(data, 0), U16(data, 2), U32(data, 4), U32(data, 8), data[12] / 16, data[13],
                   U16(data, 14), U16(data, 16), U16(data, 18), len),
               len)
  }

  predicate ValidTcp(h: Tcp) {
    5 <= h.dataOffset < 16 && h.headerLength == h.dataOffset * 4
  }

  /** `reserved` is the ignored half of the data-offset byte. */
  function EncodeTcp(h: Tcp, reserved: nat): seq<byte>
    requires ValidTcp(h) && reserved < 16
  {
    Put16(h.sourcePort) + Put16(h.destinationPort) + Put32(h.sequenceNumber) + Put32(h.ackNumber) +
    [h.dataOffset * 16 + reserved] + [h.flags] + Put16(h.window) + Put16(h.checksum) + Put16(h.urgent)
  }

  // ----- UDP (udp.c) -----

  datatype Udp = Udp(sourcePort: u16, destinationPort: u16, length: u16, checksum: u16)

  function ParseUdp(data: seq<byte>): (r: Parsed<Udp>)
    ensures r.Parsed? ==> r.next <= |data|
  {
    if !InBounds(|data|, 0, 8) then Failed(Truncated)
    else if U16(data, 4) < 8 then Failed(Malformed)
    else Parsed(Udp(U16(data, 0), U16(data, 2), U16(data, 4), U16(data, 6)), 8)
  }

  function EncodeUdp(h: Udp): seq<byte> {
    Put16(h.sourcePort) + Put16(h.destinationPort) + Put16(h.length) + Put16(h.checksum)
  }

  // ----- ICMP and ICMPv6 (icmp.c, icmpv6.c): one layout, two sets of echo types -----

  datatype Icmp = Icmp(kind: byte, code: byte, checksum: u16, identifier: u16, sequence: u16)

  /** The parser for the message types `request` and `reply` that carry an echo body. */
  function ParseEcho(data: seq<byte>, request: byte, reply: byte): Parsed<Icmp> {
    if !InBounds(|data|, 0, 4) then Failed(Truncated)
    else if data[0] != request && data[0] != reply then
      Parsed(Icmp(data[0], data[1], U16(data, 2), 0, 0), 4)
    else if !InBounds(|data|, 0, 8) then Failed(Truncated)
    else Parsed(Icmp(data[0], data[1], U16(data, 2), U16(data, 4), U16(data, 6)), 8)
  }

  function ParseIcmp(data: seq<byte>): Parsed<Icmp> { ParseEcho(data, 8, 0) }

  function ParseIcmpv6(data: seq<byte>): Parsed<Icmp> { ParseEcho(data, 128, 129) }

  /** Only echo messages have an identifier and a sequence number. */
  predicate ValidEcho(h: Icmp, request: byte, reply: byte) {
    h.kind == request || h.kind == reply || (h.identifier == 0 && h.sequence == 0)
  }

  /** Eight bytes for an echo message, four for any other: what follows those is not read. */
  function EncodeEcho(h: Icmp, request: byte, reply: byte): seq<byte> {
    [h.kind] + [h.code] + Put16(h.checksum) +
    if h.kind == request || h.kind == reply then Put16(h.identifier) + Put16(h.sequence) else []
  }
}
