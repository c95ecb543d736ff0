/** Which frames the program calls malformed, and why, said in captured bytes (src/packet.c and the
    parsers of src/protocols/). A header is given as the captured bytes from its first byte on. */
module Verdicts {
  import opened Bytes
  import opened Headers
  import opened ExtensionChain
  import opened ExtensionHeaders
  import opened Dissection

  // ----- Headers that are cut off, and headers that contradict themselves -----

  predicate IsTagged(b: seq<byte>) {
    |b| >= 14 && b[12] == 0x81 && b[13] == 0x00
  }

  predicate EthernetCut(b: seq<byte>) {
    |b| < 14 || (IsTagged(b) && |b| < 18)
  }

  function EthernetLength(b: seq<byte>): nat {
    if IsTagged(b) then 18 else 14
  }

  /** The Ethernet header names the type with these two bytes. */
  predicate Names(b: seq<byte>, high: byte, low: byte)
    requires !EthernetCut(b)
  {
    b[EthernetLength(b) - 2] == high && b[EthernetLength(b) - 1] == low
  }

  /** Version 4 and a header length, in words, of at least five. */
  predicate IPv4Begins(b: seq<byte>) {
    |b| >= 1 && 0x45 <= b[0] <= 0x4F
  }

  function IPv4Length(b: seq<byte>): nat
    requires IPv4Begins(b)
  {
    4 * (b[0] as int - 0x40)
  }

  predicate IPv4Cut(b: seq<byte>) {
    |b| < 20 || (IPv4Begins(b) && |b| < IPv4Length(b))
  }

  /** The wrong version, a header length below twenty bytes, or a total length below the header's. */
  predicate IPv4Bad(b: seq<byte>) {
    |b| >= 20 && (!IPv4Begins(b) || (|b| >= IPv4Length(b) && 0x100 * b[2] as int + b[3] as int < IPv4Length(b)))
  }

  predicate IPv6Cut(b: seq<byte>) {
    |b| < 40
  }

  predicate IPv6Bad(b: seq<byte>) {
    |b| >= 40 && !(0x60 <= b[0] <= 0x6F)
  }

  /** Ethernet and IPv4 addresses of six and four bytes. */
  predicate ArpKnown(b: seq<byte>) {
    |b| >= 8 && b[0] == 0 && b[1] == 1 && b[2] == 8 && b[3] == 0 && b[4] == 6 && b[5] == 4
  }

  predicate ArpCut(b: seq<byte>) {
    |b| < 8 || (ArpKnown(b) && |b| < 28)
  }

  predicate TcpCut(b: seq<byte>) {
    |b| < 20 || (b[12] >= 0x50 && |b| < 4 * (b[12] / 16))
  }

  predicate TcpBad(b: seq<byte>) {
    |b| >= 20 && b[12] < 0x50
  }

  predicate UdpCut(b: seq<byte>) {
    |b| < 8
  }

  predicate UdpBad(b: seq<byte>) {
    |b| >= 8 && b[4] == 0 && b[5] < 8
  }

  /** Echo messages need eight bytes, all others four. */
  predicate EchoCut(b: seq<byte>, request: byte, reply: byte) {
    |b| < 4 || ((b[0] == request || b[0] == reply) && |b| < 8)
  }

  // ----- What becomes of a frame: its verdict, and where its payload starts -----

  datatype Outcome = Outcome(verdict: Option<Reason>, payload: nat)

  function Clean(payload: nat): Outcome {
    Outcome(None, payload)
  }

  function Refused(reason: Reason, payload: nat): Outcome {
    Outcome(Some(reason), payload)
  }

  /** A protocol other than these four is no fault. */
  function TransportOutcome(data: seq<byte>, at: nat, proto: byte): Outcome
    requires at <= |data|
  {
    var b := data[at..];
    if proto == 6 then
      if TcpCut(b) then Refused(TcpTruncated, at)
      else if TcpBad(b) then Refused(TcpInconsistent, at)
      else Clean(at + 4 * (b[12] / 16))
    else if proto == 17 then
      if UdpCut(b) then Refused(UdpTruncated, at)
      else if UdpBad(b) then Refused(UdpInconsistent, at)
      else Clean(at + 8)
    else if proto == 1 then
      if EchoCut(b, 8, 0) then Refused(IcmpTruncated, at) else Clean(at)
    else if proto == 58 then
      if EchoCut(b, 128, 129) then Refused(Icmpv6Truncated, at) else Clean(at)
    else Clean(at)
  }

  function IPv4Outcome(data: seq<byte>, at: nat): Outcome
    requires at <= |data|
  {
    var b := data[at..];
    if IPv4Cut(b) then Refused(IPv4Truncated, at)
    else if IPv4Bad(b) then Refused(IPv4Inconsistent, at)
    else if b[6] % 32 != 0 || b[7] != 0 then Clean(at + IPv4Length(b))
    else TransportOutcome(data, at + IPv4Length(b), b[9])
  }

  /** Behind an IPv6 header: the transport header that the extension headers lead to, or a chain that
      leads nowhere, in which case the payload starts behind the headers that are written. */
  ghost predicate ChainOutcome(data: seq<byte>, at: nat, kind: byte, o: Outcome) {
    || (exists offset: nat, header: byte ::
          LeadsTo(data, at, kind, offset, header) && offset <= |data| && o == TransportOutcome(data, offset, header))
    || (&& (forall offset: nat, header: byte :: !LeadsTo(data, at, kind, offset, header))
        && o.verdict == Some(ChainInvalid)
        && exists xs :: StuckBehind(data, at, kind, xs, o.payload))
  }

  /** Eight headers, or fewer and the next one is not written whole. */
  ghost predicate StuckBehind(data: seq<byte>, at: nat, kind: byte, xs: seq<Extension>, payload: nat) {
    && ChainAt(data, at, kind, xs) && payload == at + Length(xs)
    && (|xs| == 8 || (|xs| < 8 && !IsUpper(KindBehind(kind, xs)) && !OneAt(data, payload, KindBehind(kind, xs))))
  }

  ghost predicate IPv6Outcome(data: seq<byte>, at: nat, o: Outcome)
    requires at <= |data|
  {
    var b := data[at..];
    if IPv6Cut(b) then o == Refused(IPv6Truncated, at)
    else if IPv6Bad(b) then o == Refused(IPv6Inconsistent, at)
    else ChainOutcome(data, at + 40, b[6], o)
  }

  /** An ARP packet for other address kinds, and an Ethernet type that is none of the three, are no
      fault. */
  ghost predicate FrameOutcome(data: seq<byte>, o: Outcome) {
    if EthernetCut(data) then o == Refused(EthernetTruncated, 0)
    else
      var at := EthernetLength(data);
      if Names(data, 0x08, 0x00) then o == IPv4Outcome(data, at)
      else if Names(data, 0x86, 0xDD) then IPv6Outcome(data, at, o)
      else if Names(data, 0x08, 0x06) then o == if ArpCut(data[at..]) then Refused(ArpTruncated, at) else Clean(at)
      else o == Clean(at)
  }

  // ----- The parsers fail exactly there -----

  lemma EthernetFails(b: seq<byte>)
    ensures ParseEthernet(b).Failed? <==> EthernetCut(b)
    ensures !EthernetCut(b) ==>
      var h := ParseEthernet(b);
      && h.next == EthernetLength(b) <= |b|
      && (h.value.ethertype == 0x0800 <==> Names(b, 0x08, 0x00))
      && (h.value.ethertype == 0x86DD <==> Names(b, 0x86, 0xDD))
      && (h.value.ethertype == 0x0806 <==> Names(b, 0x08, 0x06))
  {
  }

  lemma IPv4Fails(b: seq<byte>)
    ensures ParseIPv4(b) == Failed(Truncated) <==> IPv4Cut(b)
    ensures ParseIPv4(b) == Failed(Malformed) <==> IPv4Bad(b)
    ensures ParseIPv4(b).Failed? ==> IPv4Cut(b) || IPv4Bad(b)
    ensures ParseIPv4(b).Parsed? ==>
      var h := ParseIPv4(b).value;
      && ParseIPv4(b).next == IPv4Length(b) <= |b| && h.protocol == b[9]
      && (h.isFragment && !h.isInitialFragment <==> b[6] % 32 != 0 || b[7] != 0)
  {
    if |b| >= 20 {
      assert b[0] / 16 == 4 && b[0] % 16 >= 5 <==> IPv4Begins(b);
      FragmentField(b[6], b[7]);
    }
  }

  lemma FragmentField(high: byte, low: byte)
    ensures (0x100 * high as int + low as int) % 0x2000 == 0 <==> high % 32 == 0 && low == 0
  {
    var rest := 0x100 * (high % 32) + low;
    assert 0x100 * high as int + low as int == 0x2000 * (high / 32) + rest && 0 <= rest < 0x2000;
  }

  lemma IPv6Fails(b: seq<byte>)
    ensures ParseIPv6(b) == Failed(Truncated) <==> IPv6Cut(b)
    ensures ParseIPv6(b) == Failed(Malformed) <==> IPv6Bad(b)
    ensures ParseIPv6(b).Failed? ==> IPv6Cut(b) || IPv6Bad(b)
    ensures ParseIPv6(b).Parsed? ==> ParseIPv6(b).next == 40 <= |b| && ParseIPv6(b).value.nextHeader == b[6]
  {
    if |b| >= 40 {
      assert U32(b, 0) / 0x1000_0000 == b[0] / 16;
    }
  }

  lemma ArpFails(b: seq<byte>)
    ensures ParseArp(b) == Failed(Truncated) <==> ArpCut(b)
  {
  }

  lemma TcpFails(b: seq<byte>)
    ensures ParseTcp(b) == Failed(Truncated) <==> TcpCut(b)
    ensures ParseTcp(b) == Failed(Malformed) <==> TcpBad(b)
    ensures ParseTcp(b).Failed? ==> TcpCut(b) || TcpBad(b)
    ensures ParseTcp(b).Parsed? ==> ParseTcp(b).next == 4 * (b[12] / 16)
  {
  }

  lemma UdpFails(b: seq<byte>)
    ensures ParseUdp(b) == Failed(Truncated) <==> UdpCut(b)
    ensures ParseUdp(b) == Failed(Malformed) <==> UdpBad(b)
    ensures ParseUdp(b).Failed? ==> UdpCut(b) || UdpBad(b)
    ensures ParseUdp(b).Parsed? ==> ParseUdp(b).next == 8
  {
  }

  lemma EchoFails(b: seq<byte>, request: byte, reply: byte)
    ensures ParseEcho(b, request, reply).Failed? <==> EchoCut(b, request, reply)
  {
  }

  // ----- Stage by stage -----

  function OutcomeOf(u: Upper): Outcome {
    Outcome(u.malformed, u.payload)
  }

  lemma TransportJudged(data: seq<byte>, at: nat, proto: byte)
    requires at <= |data|
    ensures OutcomeOf(TransportLayer(data, at, proto)) == TransportOutcome(data, at, proto)
    ensures proto != 1 && proto != 6 && proto != 17 && proto != 58 ==>
            TransportLayer(data, at, proto) == Upper(NoTransport, at, None)
  {
    hide ParseTcp, ParseUdp, ParseEcho, TcpCut, TcpBad, UdpCut, UdpBad, EchoCut;
    var b := data[at..];
    TcpFails(b);
    UdpFails(b);
    EchoFails(b, 8, 0);
    EchoFails(b, 128, 129);
  }

  lemma IPv4Judged(data: seq<byte>, at: nat)
    requires at <= |data|
    ensures OutcomeOf(IPv4Layer(data, at).upper) == IPv4Outcome(data, at)
  {
    hide ParseIPv4, TransportLayer, TransportOutcome, IPv4Cut, IPv4Bad;
    var h := ParseIPv4(data[at..]);
    IPv4Fails(data[at..]);
    if h.Parsed? {
      TransportJudged(data, at + h.next, h.value.protocol);
    }
  }

  lemma ChainJudged(data: seq<byte>, at: nat, kind: byte, o: Outcome)
    requires at <= |data|
    ensures var w := Skip(data, at, kind, MAX_HEADERS);
      && w.offset <= |data|
      && (ChainOutcome(data, at, kind, o) <==>
          o == if w.ok then TransportOutcome(data, w.offset, w.header) else Refused(ChainInvalid, w.offset))
  {
    hide Skip, LeadsTo, TransportOutcome, StuckBehind;
    SkipReach(data, at, kind, MAX_HEADERS);
    var w := Skip(data, at, kind, MAX_HEADERS);
    forall offset: nat, header: byte
      ensures LeadsTo(data, at, kind, offset, header) <==> w == Walked(true, offset, header)
    {
      WalkExactly(data, at, kind, offset, header);
    }
    if w.ok {
      assert LeadsTo(data, at, kind, w.offset, w.header);
    } else {
      StuckExactly(data, at, kind, o.payload);
    }
  }

  lemma StuckExactly(data: seq<byte>, at: nat, kind: byte, payload: nat)
    requires !Skip(data, at, kind, MAX_HEADERS).ok
    ensures (exists xs :: StuckBehind(data, at, kind, xs, payload)) <==>
            payload == Skip(data, at, kind, MAX_HEADERS).offset
  {
    hide Skip, ChainAt, Length, OneAt;
    var w := Skip(data, at, kind, MAX_HEADERS);
    var ys := FailedWalk(data, at, kind);
    assert StuckBehind(data, at, kind, ys, w.offset);
    if xs :| StuckBehind(data, at, kind, xs, payload) {
      StuckWalks(data, at, kind, xs, payload, MAX_HEADERS);
    }
  }

  lemma {:induction false} StuckWalks(data: seq<byte>, at: nat, kind: byte, xs: seq<Extension>, payload: nat, budget: nat)
    requires ChainAt(data, at, kind, xs) && payload == at + Length(xs) && |xs| <= budget
    requires |xs| == budget || (!IsUpper(KindBehind(kind, xs)) && !OneAt(data, payload, KindBehind(kind, xs)))
    ensures Skip(data, at, kind, budget).offset == payload
    decreases |xs|
  {
    hide ExtensionLength, Encode, OneAt, IsUpper, IsExtension;
    KindsAreKnown(kind);
    if xs != [] {
      WrittenIsHeader(data, at, xs[0]);
      StuckWalks(data, at + |Encode(xs[0])|, xs[0].next, xs[1..], payload, budget - 1);
    } else if budget > 0 && ExtensionLength(data, at, kind).Some? {
      var x := HeaderIsWritten(data, at, kind);
      OneIsAt(data, at, kind, x);
    }
  }

  lemma OneIsAt(data: seq<byte>, at: nat, kind: byte, x: Extension)
    requires Valid(x) && KindOf(x) == kind && WrittenAt(data, at, Encode(x))
    ensures OneAt(data, at, kind)
  {
  }

  lemma IPv6Judged(data: seq<byte>, at: nat, o: Outcome)
    requires at <= |data|
    ensures IPv6Outcome(data, at, o) <==> OutcomeOf(IPv6Layer(data, at).upper) == o
  {
    hide ParseIPv6, TransportLayer, TransportOutcome, IPv6Cut, IPv6Bad, ChainOutcome, Skip;
    var h := ParseIPv6(data[at..]);
    IPv6Fails(data[at..]);
    if h.Parsed? {
      ChainJudged(data, at + 40, h.value.nextHeader, o);
      var w := Skip(data, at + 40, h.value.nextHeader, MAX_HEADERS);
      TransportJudged(data, w.offset, w.header);
    }
  }

  /** Every verdict, and the absence of one, exactly: what the program says of a captured frame, and
      where it lets the payload start, is what the frame's bytes say. */
  lemma VerdictExactly(data: seq<byte>, original: nat, o: Outcome)
    ensures var p := Dissect(data, original, EthernetLink);
      p.malformed == o.verdict && p.payload == Some(o.payload) <==> FrameOutcome(data, o)
  {
    hide ParseEthernet, IPv4Layer, IPv6Layer, ParseArp, IPv4Outcome, IPv6Outcome, EthernetCut, Names, ArpCut, DnsLayer;
    EthernetFails(data);
    var h := ParseEthernet(data);
    if h.Parsed? {
      IPv4Judged(data, h.next);
      IPv6Judged(data, h.next, o);
      ArpFails(data[h.next..]);
    }
  }

  /** Other links than Ethernet are not decoded and not judged. */
  lemma OtherLinksAreBlank(data: seq<byte>, original: nat)
    ensures Dissect(data, original, UnknownLink) ==
            Packet(|data|, original, UnknownLink, None, NoNetwork, NoTransport, None, Some(0), |data|, None)
  {
  }
}
