/** What holds of every header parser of src/protocols/: it recovers exactly what its encoder wrote,
    whatever bytes follow, and truncation is the only verdict that more bytes can change. */
module HeaderTheorems {
  import opened Bytes
  import opened Headers

  lemma EthernetRoundTrip(h: Ethernet, priority: nat, data: seq<byte>)
    requires ValidEthernet(h) && priority < 16 && EncodeEthernet(h, priority) <= data
    ensures ParseEthernet(data) == Parsed(h, if h.hasVlan then 18 else 14)
  {
    hide U16, EncodeEthernet;
    if h.hasVlan {
      TaggedFields(h, priority, data);
      TagParts(priority, h.vlanId);
    } else {
      PlainFields(h, priority, data);
    }
  }

  lemma TagParts(priority: nat, vlanId: nat)
    requires vlanId < 0x1000
    ensures (priority * 0x1000 + vlanId) % 0x1000 == vlanId
  {
  }

  lemma PlainFields(h: Ethernet, priority: nat, data: seq<byte>)
    requires ValidEthernet(h) && !h.hasVlan && priority < 16 && EncodeEthernet(h, priority) <= data
    ensures data[..6] == h.destination && data[6..12] == h.source
    ensures |data| >= 14 && U16(data, 12) == h.ethertype
  {
  }

  lemma TaggedFields(h: Ethernet, priority: nat, data: seq<byte>)
    requires ValidEthernet(h) && h.hasVlan && priority < 16 && EncodeEthernet(h, priority) <= data
    ensures data[..6] == h.destination && data[6..12] == h.source
    ensures |data| >= 18 && U16(data, 12) == ETHERTYPE_VLAN && U16(data, 16) == h.ethertype
    ensures U16(data, 14) == priority * 0x1000 + h.vlanId
  {
  }

  lemma FlagParts(reserved: bool, df: bool, mf: bool, offset: nat, f: int)
    requires offset < 0x2000
    requires f == Bit(reserved) * 0x8000 + Bit(df) * 0x4000 + Bit(mf) * 0x2000 + offset
    ensures (f / 0x4000 % 2 == 1) == df && (f / 0x2000 % 2 == 1) == mf && f % 0x2000 == offset
  {
  }

  lemma IPv4RoundTrip(h: IPv4, reserved: bool, data: seq<byte>)
    requires ValidIPv4(h) && EncodeIPv4(h, reserved) <= data && h.headerLength <= |data|
    ensures ParseIPv4(data) == Parsed(h, h.headerLength)
  {
    hide EncodeIPv4, U16;
    IPv4Fields(h, reserved, data);
    FlagParts(reserved, h.flagDf, h.flagMf, h.fragmentOffset, U16(data, 6));
  }

  lemma IPv4Fields(h: IPv4, reserved: bool, data: seq<byte>)
    requires ValidIPv4(h) && EncodeIPv4(h, reserved) <= data
    ensures data[0] == 64 + h.ihl && data[1] == h.dscp * 4 + h.ecn
    ensures U16(data, 2) == h.totalLength && U16(data, 4) == h.identification
    ensures U16(data, 6) == Bit(reserved) * 0x8000 + Bit(h.flagDf) * 0x4000 + Bit(h.flagMf) * 0x2000 + h.fragmentOffset
    ensures data[8] == h.ttl && data[9] == h.protocol && U16(data, 10) == h.checksum
    ensures data[12..16] == h.source && data[16..20] == h.destination
  {
  }

  lemma FirstWord(trafficClass: byte, flowLabel: u32, word: int)
    requires flowLabel < 0x10_0000 && word == 0x6000_0000 + trafficClass * 0x10_0000 + flowLabel
    ensures word / 0x1000_0000 == 6
    ensures word / 0x10_0000 % 0x100 == trafficClass && word % 0x10_0000 == flowLabel
  {
    assert word / 0x10_0000 == 0x600 + trafficClass;
  }

  lemma IPv6RoundTrip(h: IPv6, data: seq<byte>)
    requires ValidIPv6(h) && EncodeIPv6(h) <= data
    ensures ParseIPv6(data) == Parsed(h, 40)
  {
    assert U32(data, 0) == 0x6000_0000 + h.trafficClass * 0x10_0000 + h.flowLabel;
    FirstWord(h.trafficClass, h.flowLabel, U32(data, 0));
    assert U16(data, 4) == h.payloadLength;
    assert data[6] == h.nextHeader && data[7] == h.hopLimit;
    assert data[8..24] == h.source;
    assert data[24..40] == h.destination;
  }

  lemma ArpRoundTrip(h: Arp, data: seq<byte>)
    requires ValidArp(h) && EncodeArp(h) <= data
    ensures ParseArp(data) == Parsed(h, 28)
  {
    assert U16(data, 0) == 1 && U16(data, 2) == 0x0800 && data[4] == 6 && data[5] == 4;
    assert U16(data, 6) == h.operation;
    assert data[8..14] == h.senderMac;
    assert data[14..18] == h.senderIp;
    assert data[18..24] == h.targetMac;
    assert data[24..28] == h.targetIp;
  }

  lemma TcpRoundTrip(h: Tcp, reserved: nat, data: seq<byte>)
    requires ValidTcp(h) && reserved < 16 && EncodeTcp(h, reserved) <= data && h.headerLength <= |data|
    ensures ParseTcp(data) == Parsed(h, h.headerLength)
  {
    hide EncodeTcp, U16, U32;
    TcpFields(h, reserved, data);
  }

  lemma TcpFields(h: Tcp, reserved: nat, data: seq<byte>)
    requires ValidTcp(h) && reserved < 16 && EncodeTcp(h, reserved) <= data
    ensures |data| >= 20
    ensures U16(data, 0) == h.sourcePort && U16(data, 2) == h.destinationPort
    ensures U32(data, 4) == h.sequenceNumber && U32(data, 8) == h.ackNumber
    ensures data[12] == h.dataOffset * 16 + reserved && data[13] == h.flags
    ensures U16(data, 14) == h.window && U16(data, 16) == h.checksum && U16(data, 18) == h.urgent
  {
  }

  lemma UdpRoundTrip(h: Udp, data: seq<byte>)
    requires h.length >= 8 && EncodeUdp(h) <= data
    ensures ParseUdp(data) == Parsed(h, 8)
  {
    assert U16(data, 0) == h.sourcePort;
    assert U16(data, 2) == h.destinationPort;
    assert U16(data, 4) == h.length;
    assert U16(data, 6) == h.checksum;
  }

  /** Echo messages carry their identifier and sequence number; no other message has them, whatever
      its further bytes are and whether they were captured. */
  lemma EchoRoundTrip(h: Icmp, request: byte, reply: byte, data: seq<byte>)
    requires ValidEcho(h, request, reply) && EncodeEcho(h, request, reply) <= data
    ensures ParseEcho(data, request, reply) == Parsed(h, |EncodeEcho(h, request, reply)|)
  {
    assert data[0] == h.kind && data[1] == h.code;
    assert U16(data, 2) == h.checksum;
    if h.kind == request || h.kind == reply {
      assert U16(data, 4) == h.identifier;
      assert U16(data, 6) == h.sequence;
    }
  }

  // ----- Soundness: an accepted header is the one that its captured bytes encode -----

  lemma Adjacent(data: seq<byte>, i: nat, j: nat, k: nat)
    requires i <= j <= k <= |data|
    ensures data[i..j] + data[j..k] == data[i..k]
  {
  }

  lemma TagBits(data: seq<byte>)
    requires |data| >= 16
    ensures data[14] / 16 * 0x1000 + U16(data, 14) % 0x1000 == U16(data, 14)
  {
  }

  lemma EthernetSound(data: seq<byte>)
    requires ParseEthernet(data).Parsed?
    ensures var h, len := ParseEthernet(data).value, ParseEthernet(data).next;
      && ValidEthernet(h) && len == (if h.hasVlan then 18 else 14) <= |data|
      && EncodeEthernet(h, if h.hasVlan then data[14] / 16 else 0) == data[..len]
  {
    hide U16, Put16;
    if U16(data, 12) == ETHERTYPE_VLAN {
      TagBits(data);
      TaggedBytes(data);
    } else {
      PlainBytes(data);
    }
  }

  lemma PlainBytes(data: seq<byte>)
    requires |data| >= 14
    ensures data[..6] + data[6..12] + Put16(U16(data, 12)) == data[..14]
  {
    hide U16, U32, Put16, Put32;
    PutBack(data, 12);
    Adjacent(data, 0, 6, 12);
    Adjacent(data, 0, 12, 14);
  }

  lemma TaggedBytes(data: seq<byte>)
    requires |data| >= 18
    ensures data[..6] + data[6..12] + Put16(U16(data, 12)) + Put16(U16(data, 14)) + Put16(U16(data, 16)) == data[..18]
  {
    hide U16, U32, Put16, Put32;
    PlainBytes(data);
    PutBack(data, 14);
    PutBack(data, 16);
    Adjacent(data, 0, 14, 16);
    Adjacent(data, 0, 16, 18);
  }

  lemma FlagBits(f: u16)
    ensures Bit(f >= 0x8000) * 0x8000 + Bit(f / 0x4000 % 2 == 1) * 0x4000 + Bit(f / 0x2000 % 2 == 1) * 0x2000 +
            f % 0x2000 == f
  {
  }

  lemma IPv4Sound(data: seq<byte>)
    requires ParseIPv4(data).Parsed?
    ensures var h, len := ParseIPv4(data).value, ParseIPv4(data).next;
      && ValidIPv4(h) && len == h.headerLength <= |data|
      && EncodeIPv4(h, U16(data, 6) >= 0x8000) == data[..20]
  {
    hide U16, Put16;
    assert data[0] == 64 + data[0] % 16 && data[1] == data[1] / 4 * 4 + data[1] % 4;
    FlagBits(U16(data, 6));
    IPv4Bytes(data);
  }

  lemma IPv4Bytes(data: seq<byte>)
    requires |data| >= 20
    ensures [data[0]] + [data[1]] + Put16(U16(data, 2)) + Put16(U16(data, 4)) + Put16(U16(data, 6)) +
            [data[8]] + [data[9]] + Put16(U16(data, 10)) + data[12..16] + data[16..20] == data[..20]
  {
    hide U16, U32, Put16, Put32;
    PutBack(data, 2);
    PutBack(data, 4);
    PutBack(data, 6);
    PutBack(data, 10);
    Adjacent(data, 0, 2, 4);
    Adjacent(data, 0, 4, 6);
    Adjacent(data, 0, 6, 8);
    Adjacent(data, 0, 10, 12);
    Adjacent(data, 0, 12, 16);
    Adjacent(data, 0, 16, 20);
  }

  lemma IPv6Sound(data: seq<byte>)
    requires ParseIPv6(data).Parsed?
    ensures var h, len := ParseIPv6(data).value, ParseIPv6(data).next;
      ValidIPv6(h) && len == 40 <= |data| && EncodeIPv6(h) == data[..40]
  {
    hide U16, U32, Put16, Put32;
    var h := ParseIPv6(data).value;
    assert U32(data, 0) == 0x6000_0000 + h.trafficClass * 0x10_0000 + h.flowLabel;
    PutBack(data, 0);
    PutBack(data, 4);
    Adjacent(data, 0, 4, 6);
    Adjacent(data, 0, 8, 24);
    Adjacent(data, 0, 24, 40);
  }

  lemma ArpSound(data: seq<byte>)
    requires ParseArp(data).Parsed?
    ensures ValidArp(ParseArp(data).value) && EncodeArp(ParseArp(data).value) == data[..28]
  {
    hide U16, U32, Put16, Put32;
    PutBack(data, 0);
    PutBack(data, 2);
    PutBack(data, 6);
    Adjacent(data, 0, 2, 4);
    Adjacent(data, 0, 6, 8);
    Adjacent(data, 0, 8, 14);
    Adjacent(data, 0, 14, 18);
    Adjacent(data, 0, 18, 24);
    Adjacent(data, 0, 24, 28);
  }

  lemma TcpSound(data: seq<byte>)
    requires ParseTcp(data).Parsed?
    ensures var h, len := ParseTcp(data).value, ParseTcp(data).next;
      && ValidTcp(h) && len == h.headerLength <= |data|
      && EncodeTcp(h, data[12] % 16) == data[..20]
  {
    hide U16, U32, Put16, Put32;
    PutBack(data, 0);
    PutBack(data, 2);
    PutBack(data, 4);
    PutBack(data, 8);
    PutBack(data, 14);
    PutBack(data, 16);
    PutBack(data, 18);
    Adjacent(data, 0, 2, 4);
    Adjacent(data, 0, 4, 8);
    Adjacent(data, 0, 8, 12);
    Adjacent(data, 0, 14, 16);
    Adjacent(data, 0, 16, 18);
    Adjacent(data, 0, 18, 20);
  }

  lemma UdpSound(data: seq<byte>)
    requires ParseUdp(data).Parsed?
    ensures ParseUdp(data).value.length >= 8 && EncodeUdp(ParseUdp(data).value) == data[..8]
  {
    hide U16, U32, Put16, Put32;
    PutBack(data, 0);
    PutBack(data, 2);
    PutBack(data, 4);
    PutBack(data, 6);
    Adjacent(data, 0, 2, 4);
    Adjacent(data, 0, 4, 6);
    Adjacent(data, 0, 6, 8);
  }

  lemma EchoSound(data: seq<byte>, request: byte, reply: byte)
    requires ParseEcho(data, request, reply).Parsed?
    ensures var r := ParseEcho(data, request, reply);
      && ValidEcho(r.value, request, reply) && r.next <= |data|
      && EncodeEcho(r.value, request, reply) == data[..r.next]
  {
    hide U16, U32, Put16, Put32;
    PutBack(data, 2);
    PutBack(data, 4);
    PutBack(data, 6);
  }

  // ----- More captured bytes -----

  lemma EthernetStable(data: seq<byte>, longer: seq<byte>)
    requires data <= longer && ParseEthernet(data) != Failed(Truncated)
    ensures ParseEthernet(longer) == ParseEthernet(data)
  {
    assert data[..6] == longer[..6] && data[6..12] == longer[6..12];
  }

  lemma IPv4Stable(data: seq<byte>, longer: seq<byte>)
    requires data <= longer && ParseIPv4(data) != Failed(Truncated)
    ensures ParseIPv4(longer) == ParseIPv4(data)
  {
    assert data[12..16] == longer[12..16] && data[16..20] == longer[16..20];
  }

  lemma IPv6Stable(data: seq<byte>, longer: seq<byte>)
    requires data <= longer && ParseIPv6(data) != Failed(Truncated)
    ensures ParseIPv6(longer) == ParseIPv6(data)
  {
    assert data[8..24] == longer[8..24] && data[24..40] == longer[24..40];
  }

  lemma ArpStable(data: seq<byte>, longer: seq<byte>)
    requires data <= longer && ParseArp(data) != Failed(Truncated)
    ensures ParseArp(longer) == ParseArp(data)
  {
    if ParseArp(data).Parsed? {
      assert data[8..14] == longer[8..14] && data[14..18] == longer[14..18];
      assert data[18..24] == longer[18..24] && data[24..28] == longer[24..28];
    }
  }

  lemma TcpStable(data: seq<byte>, longer: seq<byte>)
    requires data <= longer && ParseTcp(data) != Failed(Truncated)
    ensures ParseTcp(longer) == ParseTcp(data)
  {
  }

  lemma UdpStable(data: seq<byte>, longer: seq<byte>)
    requires data <= longer && ParseUdp(data) != Failed(Truncated)
    ensures ParseUdp(longer) == ParseUdp(data)
  {
  }

  lemma EchoStable(data: seq<byte>, longer: seq<byte>, request: byte, reply: byte)
    requires data <= longer && ParseEcho(data, request, reply) != Failed(Truncated)
    ensures ParseEcho(longer, request, reply) == ParseEcho(data, request, reply)
  {
  }
}
