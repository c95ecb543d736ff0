/** Counters and flows over a run of packets (`ns_stats_update`, src/stats.c). */
module Statistics {
  import opened Bytes
  import opened Headers
  import opened AddressText
  import opened AddressPrinter
  import opened Dissection
  import opened DissectionTheorems
  import opened FlowTable
  import opened FlowTrace
  import Dissector

  // ----- Which flow a packet belongs to -----

  datatype Endpoint = Endpoint(addr: seq<byte>, port: u16)

  datatype Conversation = Conversation(proto: Proto, from: Endpoint, to: Endpoint)

  function TransportConversation(t: Transport, source: seq<byte>, destination: seq<byte>): Option<Conversation> {
    match t
    case OverTcp(h) => Some(Conversation(TCP, Endpoint(source, h.sourcePort), Endpoint(destination, h.destinationPort)))
    case OverUdp(h) => Some(Conversation(UDP, Endpoint(source, h.sourcePort), Endpoint(destination, h.destinationPort)))
    case OverIcmp(_) => Some(Conversation(ICMP, Endpoint(source, 0), Endpoint(destination, 0)))
    case OverIcmpv6(_) => Some(Conversation(ICMPv6, Endpoint(source, 0), Endpoint(destination, 0)))
    case NoTransport => None
  }

  /** The protocol and the addressed endpoints of a packet, if it has any. */
  function ConversationOf(p: Packet): Option<Conversation> {
    match p.network
    case OverArp(h) => Some(Conversation(ARP, Endpoint(h.senderIp, 0), Endpoint(h.targetIp, 0)))
    case OverIPv4(h) => TransportConversation(p.transport, h.source, h.destination)
    case OverIPv6(h) => TransportConversation(p.transport, h.source, h.destination)
    case NoNetwork => None
  }

  predicate IsAddress(addr: seq<byte>) {
    |addr| == 4 || |addr| == 16
  }

  function TextOf(addr: seq<byte>): string
    requires IsAddress(addr)
  {
    if |addr| == 4 then IPv4Text(addr) else IPv6Text(addr)
  }

  function KeyOf(c: Conversation): Key
    requires IsAddress(c.from.addr) && IsAddress(c.to.addr)
  {
    Canonical(c.proto, TextOf(c.from.addr), c.from.port, TextOf(c.to.addr), c.to.port)
  }

  lemma TextIdentifiesAddress(a: seq<byte>, b: seq<byte>)
    requires IsAddress(a) && IsAddress(b)
    ensures TextOf(a) == TextOf(b) <==> a == b
  {
    if |a| == |b| == 4 {
      AddressText.IPv4RoundTrip(a);
      AddressText.IPv4RoundTrip(b);
    } else if |a| == |b| == 16 {
      AddressText.IPv6RoundTrip(a);
      AddressText.IPv6RoundTrip(b);
    } else if |a| == 4 {
      FamiliesDiffer(a, b);
    } else {
      FamiliesDiffer(b, a);
    }
  }

  predicate SameConversation(c: Conversation, d: Conversation) {
    c.proto == d.proto && ((c.from == d.from && c.to == d.to) || (c.from == d.to && c.to == d.from))
  }

  lemma ConversationIsAddressed(p: Packet)
    requires WellAddressed(p.network) && ConversationOf(p).Some?
    ensures var c := ConversationOf(p).value;
      IsAddress(c.from.addr) && IsAddress(c.to.addr)
  {
  }

  lemma KeysIdentifyConversations(c: Conversation, d: Conversation)
    requires IsAddress(c.from.addr) && IsAddress(c.to.addr)
    requires IsAddress(d.from.addr) && IsAddress(d.to.addr)
    ensures KeyOf(c) == KeyOf(d) <==> SameConversation(c, d)
  {
    TextIdentifiesAddress(c.from.addr, d.from.addr);
    TextIdentifiesAddress(c.from.addr, d.to.addr);
    TextIdentifiesAddress(c.to.addr, d.from.addr);
    TextIdentifiesAddress(c.to.addr, d.to.addr);
    CanonicalKeys(c.proto, TextOf(c.from.addr), c.from.port, TextOf(c.to.addr), c.to.port,
                  d.proto, TextOf(d.from.addr), d.from.port, TextOf(d.to.addr), d.to.port);
  }

  // ----- One packet -----

  datatype Counters = Counters(total: nat, capturedBytes: nat, wireBytes: nat,
                               ipv4: nat, ipv6: nat, arp: nat,
                               tcp: nat, udp: nat, icmp: nat, icmpv6: nat,
                               dns: nat, malformed: nat, unsupported: nat)

  const ZERO := Counters(0, 0, 0, 0, 0, 0, 0, 0, 0, 0, 0, 0, 0)

  /** Each counter counts the packets with one property. */
  function Count(c: Counters, p: Packet): Counters {
    Counters(c.total + 1, c.capturedBytes + p.capturedLength, c.wireBytes + p.originalLength,
             c.ipv4 + Bit(p.network.OverIPv4?), c.ipv6 + Bit(p.network.OverIPv6?), c.arp + Bit(p.network.OverArp?),
             c.tcp + Bit(p.transport.OverTcp?), c.udp + Bit(p.transport.OverUdp?),
             c.icmp + Bit(p.transport.OverIcmp?), c.icmpv6 + Bit(p.transport.OverIcmpv6?),
             c.dns + Bit(p.dns.Some?), c.malformed + Bit(p.malformed.Some?),
             c.unsupported + Bit(p.network.NoNetwork? && p.eth.Some? && p.malformed.None?))
  }

  function EventOf(p: Packet): Option<Event>
    requires WellAddressed(p.network)
  {
    match ConversationOf(p)
    case None => None
    case Some(c) =>
      ConversationIsAddressed(p);
      Some(Event(KeyOf(c), p.capturedLength))
  }

  /** An address in a 46-byte buffer: never cut off. */
  method FormatAddress(addr: seq<byte>) returns (text: string)
    requires IsAddress(addr)
    ensures text == TextOf(addr) && |text| < ADDRESS_BUFFER
  {
    var buf := new char[ADDRESS_BUFFER];
    var n;
    if |addr| == 4 {
      IPv4Length(addr);
      n := Print(buf, IPv4Text(addr));
    } else {
      n := FormatIPv6(addr, buf);
    }
    text := buf[..n];
  }

  class Stats {
    var counters: Counters
    const table: Table

    ghost predicate Valid()
      reads this, table, table.slots
    {
      table.Valid()
    }

    /** `ns_stats_init`. */
    constructor (hash: Hash, capacity: nat)
      requires capacity > 0
      ensures Valid() && counters == ZERO && table.flows == map[] && table.slots.Length == capacity
      ensures fresh(table) && fresh(table.slots)
    {
      counters := ZERO;
      table := new Table(hash, capacity);
    }

    /** `ns_stats_update`. */
    method Update(p: Packet)
      requires Valid() && WellAddressed(p.network)
      modifies this, table, table.slots
      ensures Valid() && counters == Count(old(counters), p)
      ensures table.flows == match EventOf(p)
        case None => old(table.flows)
        case Some(e) => Tally(old(table.flows), e.key, e.bytes, table.slots.Length)
    {
      CountPacket(p);
      match ConversationOf(p)
      case None =>
      case Some(c) =>
        ConversationIsAddressed(p);
        var a := FormatAddress(c.from.addr);
        var b := FormatAddress(c.to.addr);
        table.Record(c.proto, a, c.from.port, b, c.to.port, p.capturedLength);
    }

    method CountPacket(p: Packet)
      modifies this`counters
      ensures counters == Count(old(counters), p)
    {
      var c := counters;
      c := c.(total := c.total + 1, capturedBytes := c.capturedBytes + p.capturedLength,
              wireBytes := c.wireBytes + p.originalLength);
      if p.malformed.Some? {
        c := c.(malformed := c.malformed + 1);
      }
      c := CountNetwork(c, p);
      c := CountTransport(c, p.transport);
      if p.dns.Some? {
        c := c.(dns := c.dns + 1);
      }
      counters := c;
    }
  }

  method CountNetwork(c: Counters, p: Packet) returns (d: Counters)
    ensures d == c.(ipv4 := c.ipv4 + Bit(p.network.OverIPv4?), ipv6 := c.ipv6 + Bit(p.network.OverIPv6?),
                    arp := c.arp + Bit(p.network.OverArp?),
                    unsupported := c.unsupported + Bit(p.network.NoNetwork? && p.eth.Some? && p.malformed.None?))
  {
    d := c;
    match p.network {
      case OverIPv4(_) => d := d.(ipv4 := d.ipv4 + 1);
      case OverIPv6(_) => d := d.(ipv6 := d.ipv6 + 1);
      case OverArp(_) => d := d.(arp := d.arp + 1);
      case NoNetwork =>
        if p.eth.Some? && p.malformed.None? {
          d := d.(unsupported := d.unsupported + 1);
        }
    }
  }

  method CountTransport(c: Counters, t: Transport) returns (d: Counters)
    ensures d == c.(tcp := c.tcp + Bit(t.OverTcp?), udp := c.udp + Bit(t.OverUdp?),
                    icmp := c.icmp + Bit(t.OverIcmp?), icmpv6 := c.icmpv6 + Bit(t.OverIcmpv6?))
  {
    d := c;
    match t {
      case OverTcp(_) => d := d.(tcp := d.tcp + 1);
      case OverUdp(_) => d := d.(udp := d.udp + 1);
      case OverIcmp(_) => d := d.(icmp := d.icmp + 1);
      case OverIcmpv6(_) => d := d.(icmpv6 := d.icmpv6 + 1);
      case NoTransport =>
    }
  }

  // ----- Whole runs -----

  datatype Frame = Frame(data: seq<byte>, original: nat)

  /** The counters after a run of captured frames. */
  function CountersAfter(frames: seq<Frame>, link: Link): Counters {
    if frames == [] then ZERO
    else
      var last := frames[|frames| - 1];
      Count(CountersAfter(frames[..|frames| - 1], link), Dissect(last.data, last.original, link))
  }

  /** Packets with neither a decoded transport layer nor ARP: what the summary prints as "Other". */
  function OthersAfter(frames: seq<Frame>, link: Link): nat {
    if frames == [] then 0
    else
      var last := frames[|frames| - 1];
      var p := Dissect(last.data, last.original, link);
      OthersAfter(frames[..|frames| - 1], link) + Bit(p.transport.NoTransport? && !p.network.OverArp?)
  }

  lemma CountKeeps(c: Counters, p: Packet, others: nat)
    requires WellLayered(p)
    ensures var d := Count(c, p);
      && (c.dns <= c.tcp + c.udp ==> d.dns <= d.tcp + d.udp)
      && (c.tcp + c.udp + c.icmp + c.icmpv6 <= c.ipv4 + c.ipv6 ==> d.tcp + d.udp + d.icmp + d.icmpv6 <= d.ipv4 + d.ipv6)
      && (c.ipv4 + c.ipv6 + c.arp + c.unsupported <= c.total ==> d.ipv4 + d.ipv6 + d.arp + d.unsupported <= d.total)
      && (p.link == EthernetLink && c.total <= c.ipv4 + c.ipv6 + c.arp + c.unsupported + c.malformed ==>
            d.total <= d.ipv4 + d.ipv6 + d.arp + d.unsupported + d.malformed)
      && (c.total - c.tcp - c.udp - c.icmp - c.icmpv6 - c.arp == others ==>
            d.total - d.tcp - d.udp - d.icmp - d.icmpv6 - d.arp ==
            others + Bit(p.transport.NoTransport? && !p.network.OverArp?))
  {
  }

  /** Counter consistency after every run. The printed "Other" figure is exactly the number of
      packets that are neither ARP nor decoded to a transport layer; so it never wraps around. */
  lemma {:induction false} CountersConsistent(frames: seq<Frame>, link: Link)
    ensures var c := CountersAfter(frames, link);
      && c.dns <= c.tcp + c.udp
      && c.tcp + c.udp + c.icmp + c.icmpv6 <= c.ipv4 + c.ipv6
      && c.ipv4 + c.ipv6 + c.arp + c.unsupported <= c.total
      && (link == EthernetLink ==> c.total <= c.ipv4 + c.ipv6 + c.arp + c.unsupported + c.malformed)
      && c.total - c.tcp - c.udp - c.icmp - c.icmpv6 - c.arp == OthersAfter(frames, link)
  {
    if frames != [] {
      var front, last := frames[..|frames| - 1], frames[|frames| - 1];
      CountersConsistent(front, link);
      DissectionIsWellLayered(last.data, last.original, link);
      var p := Dissect(last.data, last.original, link);
      assert p.link == link;
      CountKeeps(CountersAfter(front, link), p, OthersAfter(front, link));
    }
  }

  /** The frames of a run whose packets have a property. */
  function HowMany(frames: seq<Frame>, link: Link, has: Packet -> bool): nat {
    if frames == [] then 0
    else
      var last := frames[|frames| - 1];
      HowMany(frames[..|frames| - 1], link, has) + if has(Dissect(last.data, last.original, link)) then 1 else 0
  }

  function WireBytes(frames: seq<Frame>): nat {
    if frames == [] then 0 else WireBytes(frames[..|frames| - 1]) + frames[|frames| - 1].original
  }

  /** A counter that starts at zero and grows by one with each packet that has a property. */
  lemma {:induction false} CountsHowMany(frames: seq<Frame>, link: Link, get: Counters -> nat, has: Packet -> bool)
    requires get(ZERO) == 0 && forall c, p :: get(Count(c, p)) == get(c) + if has(p) then 1 else 0
    ensures get(CountersAfter(frames, link)) == HowMany(frames, link, has)
  {
    hide Dissect, Count;
    if frames != [] {
      CountsHowMany(frames[..|frames| - 1], link, get, has);
    }
  }

  lemma {:induction false} CountsBytes(frames: seq<Frame>, link: Link)
    ensures var c := CountersAfter(frames, link);
      c.total == |frames| && c.capturedBytes == CapturedBytes(frames) && c.wireBytes == WireBytes(frames)
  {
    if frames != [] {
      CountsBytes(frames[..|frames| - 1], link);
    }
  }

  const IS_IPV4 := (p: Packet) => p.network.OverIPv4?
  const IS_IPV6 := (p: Packet) => p.network.OverIPv6?
  const IS_ARP := (p: Packet) => p.network.OverArp?
  const IS_TCP := (p: Packet) => p.transport.OverTcp?
  const IS_UDP := (p: Packet) => p.transport.OverUdp?
  const IS_ICMP := (p: Packet) => p.transport.OverIcmp?
  const IS_ICMPV6 := (p: Packet) => p.transport.OverIcmpv6?
  const IS_DNS := (p: Packet) => p.dns.Some?
  const IS_MALFORMED := (p: Packet) => p.malformed.Some?
  const IS_UNSUPPORTED := (p: Packet) => p.eth.Some? && p.network.NoNetwork? && p.malformed.None?

  /** Every counter, exactly, after every run. */
  lemma CountersExact(frames: seq<Frame>, link: Link)
    ensures var c := CountersAfter(frames, link);
      && c.total == |frames| && c.capturedBytes == CapturedBytes(frames) && c.wireBytes == WireBytes(frames)
      && c.ipv4 == HowMany(frames, link, IS_IPV4) && c.ipv6 == HowMany(frames, link, IS_IPV6)
      && c.arp == HowMany(frames, link, IS_ARP)
      && c.tcp == HowMany(frames, link, IS_TCP) && c.udp == HowMany(frames, link, IS_UDP)
      && c.icmp == HowMany(frames, link, IS_ICMP) && c.icmpv6 == HowMany(frames, link, IS_ICMPV6)
      && c.dns == HowMany(frames, link, IS_DNS) && c.malformed == HowMany(frames, link, IS_MALFORMED)
      && c.unsupported == HowMany(frames, link, IS_UNSUPPORTED)
  {
    hide CountersAfter, HowMany, CapturedBytes, WireBytes;
    CountsBytes(frames, link);
    CountsHowMany(frames, link, (c: Counters) => c.ipv4, IS_IPV4);
    CountsHowMany(frames, link, (c: Counters) => c.ipv6, IS_IPV6);
    CountsHowMany(frames, link, (c: Counters) => c.arp, IS_ARP);
    CountsHowMany(frames, link, (c: Counters) => c.tcp, IS_TCP);
    CountsHowMany(frames, link, (c: Counters) => c.udp, IS_UDP);
    CountsHowMany(frames, link, (c: Counters) => c.icmp, IS_ICMP);
    CountsHowMany(frames, link, (c: Counters) => c.icmpv6, IS_ICMPV6);
    CountsHowMany(frames, link, (c: Counters) => c.dns, IS_DNS);
    CountsHowMany(frames, link, (c: Counters) => c.malformed, IS_MALFORMED);
    CountsHowMany(frames, link, (c: Counters) => c.unsupported, IS_UNSUPPORTED);
  }

  /** What each element contributes, in order. */
  function Collect<A, B>(f: A -> seq<B>, xs: seq<A>): seq<B> {
    if xs == [] then [] else Collect(f, xs[..|xs| - 1]) + f(xs[|xs| - 1])
  }

  /** The flow events of one frame: none or one. */
  function FrameEvents(link: Link): Frame -> seq<Event> {
    (f: Frame) =>
      DissectionIsWellLayered(f.data, f.original, link);
      match EventOf(Dissect(f.data, f.original, link))
      case None => []
      case Some(e) => [e]
  }

  /** The flow events of a run of frames, in order. */
  function EventsOf(frames: seq<Frame>, link: Link): seq<Event> {
    Collect(FrameEvents(link), frames)
  }

  /** Running the dissector and the statistics over any capture, from a fresh table: the counters
      and the flows are those of the run. */
  method RunCapture(frames: seq<Frame>, link: Link, hash: Hash) returns (stats: Stats)
    ensures stats.Valid() && stats.table.slots.Length == 1024
    ensures stats.counters == CountersAfter(frames, link)
    ensures stats.table.flows == Replay(EventsOf(frames, link), 1024)
    ensures forall k :: k in stats.table.flows <==> k in Tracked(EventsOf(frames, link), 1024)
    ensures forall k :: k in stats.table.flows ==>
      stats.table.flows[k] == Totals(PacketsOf(EventsOf(frames, link), k), BytesOf(EventsOf(frames, link), k))
  {
    stats := new Stats(hash, MAX_FLOWS);
    for i := 0 to |frames|
      invariant stats.Valid() && fresh(stats) && fresh(stats.table) && fresh(stats.table.slots)
      invariant stats.table.slots.Length == MAX_FLOWS
      invariant stats.counters == CountersAfter(frames[..i], link)
      invariant stats.table.flows == Replay(EventsOf(frames[..i], link), MAX_FLOWS)
    {
      DissectionIsWellLayered(frames[i].data, frames[i].original, link);
      var packet := new Dissector.PacketBuffer(frames[i].data, frames[i].original, link);
      stats.Update(packet.View());
      RunStep(frames, i, link);
    }
    assert frames[..|frames|] == frames;
    ReplayIsExact(EventsOf(frames, link), MAX_FLOWS);
  }

  lemma RunStep(frames: seq<Frame>, i: nat, link: Link)
    requires i < |frames| && WellAddressed(Dissect(frames[i].data, frames[i].original, link).network)
    ensures var p := Dissect(frames[i].data, frames[i].original, link);
      && CountersAfter(frames[..i + 1], link) == Count(CountersAfter(frames[..i], link), p)
      && Replay(EventsOf(frames[..i + 1], link), MAX_FLOWS) ==
         match EventOf(p)
         case None => Replay(EventsOf(frames[..i], link), MAX_FLOWS)
         case Some(e) => Tally(Replay(EventsOf(frames[..i], link), MAX_FLOWS), e.key, e.bytes, MAX_FLOWS)
  {
    var p := Dissect(frames[i].data, frames[i].original, link);
    assert frames[..i + 1][..i] == frames[..i];
    var before, after := EventsOf(frames[..i], link), EventsOf(frames[..i + 1], link);
    match EventOf(p)
    case None => assert after == before;
    case Some(e) => assert after == before + [e] && after[..|after| - 1] == before;
  }

  // ----- Order -----

  lemma CollectSnoc<A, B>(f: A -> seq<B>, xs: seq<A>, x: A)
    ensures Collect(f, xs + [x]) == Collect(f, xs) + f(x)
  {
    assert (xs + [x])[..|xs|] == xs;
  }

  lemma {:induction false} CollectWithout<A, B>(f: A -> seq<B>, xs: seq<A>, i: nat)
    requires i < |xs|
    ensures multiset(Collect(f, xs)) == multiset(Collect(f, xs[..i] + xs[i + 1..])) + multiset(f(xs[i]))
    decreases |xs|
  {
    var last := |xs| - 1;
    if i == last {
      assert xs[..i] + xs[i + 1..] == xs[..last];
      Sum(Collect(f, xs[..last]), f(xs[last]));
    } else {
      var less := xs[..last][..i] + xs[..last][i + 1..];
      CollectWithout(f, xs[..last], i);
      CollectSnoc(f, less, xs[last]);
      LastKept(xs, i);
      Sum(Collect(f, xs[..last]), f(xs[last]));
      Sum(Collect(f, less), f(xs[last]));
    }
  }

  lemma LastKept<A>(xs: seq<A>, i: nat)
    requires i < |xs| - 1
    ensures var last := |xs| - 1;
      xs[..i] + xs[i + 1..] == xs[..last][..i] + xs[..last][i + 1..] + [xs[last]]
  {
  }

  lemma Sum<B>(a: seq<B>, b: seq<B>)
    ensures multiset(a + b) == multiset(a) + multiset(b)
  {
  }

  lemma {:induction false} CollectPermute<A, B>(f: A -> seq<B>, a: seq<A>, b: seq<A>)
    requires multiset(a) == multiset(b)
    ensures multiset(Collect(f, a)) == multiset(Collect(f, b))
    decreases |a|
  {
    if a == [] {
      assert |b| == |multiset(b)| == 0;
    } else {
      var last := |a| - 1;
      assert a[last] in multiset(b);
      var i :| 0 <= i < |b| && b[i] == a[last];
      Without(a, last);
      Without(b, i);
      CollectPermute(f, a[..last] + a[last + 1..], b[..i] + b[i + 1..]);
      CollectWithout(f, a, last);
      CollectWithout(f, b, i);
    }
  }

  /** While a run has at most 1024 flows, the flow table does not depend on the order of its frames. */
  lemma RunIgnoresOrder(a: seq<Frame>, b: seq<Frame>, link: Link)
    requires multiset(a) == multiset(b) && |KeysOf(EventsOf(a, link))| <= 1024
    ensures Replay(EventsOf(a, link), 1024) == Replay(EventsOf(b, link), 1024)
  {
    CollectPermute(FrameEvents(link), a, b);
    ReplayIgnoresOrder(EventsOf(a, link), EventsOf(b, link), 1024);
  }

  // ----- What a tracked flow counts -----

  predicate Takes(f: Frame, link: Link, c: Conversation) {
    var d := ConversationOf(Dissect(f.data, f.original, link));
    d.Some? && SameConversation(d.value, c)
  }

  function Taker(link: Link, c: Conversation): Frame -> bool {
    (f: Frame) => Takes(f, link, c)
  }

  function Filter<A>(p: A -> bool, xs: seq<A>): seq<A> {
    if xs == [] then []
    else
      var front, last := Filter(p, xs[..|xs| - 1]), xs[|xs| - 1];
      if p(last) then front + [last] else front
  }

  /** The frames of a run that belong to a conversation, in either direction. */
  function FramesOf(frames: seq<Frame>, link: Link, c: Conversation): seq<Frame> {
    Filter(Taker(link, c), frames)
  }

  function CapturedBytes(frames: seq<Frame>): nat {
    if frames == [] then 0 else CapturedBytes(frames[..|frames| - 1]) + |frames[|frames| - 1].data|
  }

  lemma EventMatches(f: Frame, link: Link, c: Conversation)
    requires IsAddress(c.from.addr) && IsAddress(c.to.addr)
    requires WellAddressed(Dissect(f.data, f.original, link).network)
    ensures var e := EventOf(Dissect(f.data, f.original, link));
      && (Takes(f, link, c) <==> e.Some? && e.value.key == KeyOf(c))
      && (e.Some? ==> e.value.bytes == |f.data|)
  {
    var p := Dissect(f.data, f.original, link);
    if ConversationOf(p).Some? {
      ConversationIsAddressed(p);
      KeysIdentifyConversations(ConversationOf(p).value, c);
    }
  }

  lemma {:induction false} TotalsAppend(a: seq<Event>, b: seq<Event>, key: Key)
    ensures PacketsOf(a + b, key) == PacketsOf(a, key) + PacketsOf(b, key)
    ensures BytesOf(a + b, key) == BytesOf(a, key) + BytesOf(b, key)
  {
    if b == [] {
      assert a + b == a;
    } else {
      assert (a + b)[..|a + b| - 1] == a + b[..|b| - 1];
      TotalsAppend(a, b[..|b| - 1], key);
    }
  }

  lemma OneFrameCounts(f: Frame, link: Link, c: Conversation)
    requires IsAddress(c.from.addr) && IsAddress(c.to.addr)
    ensures var events := FrameEvents(link)(f);
      && PacketsOf(events, KeyOf(c)) == Bit(Takes(f, link, c))
      && BytesOf(events, KeyOf(c)) == if Takes(f, link, c) then |f.data| else 0
  {
    DissectionIsWellLayered(f.data, f.original, link);
    EventMatches(f, link, c);
    var events := FrameEvents(link)(f);
    if events != [] {
      assert events[..|events| - 1] == [];
    }
  }

  /** One event per frame taken, with the frame's bytes, adds up to the frames taken. */
  lemma {:induction false} CountsTaken(frames: seq<Frame>, emit: Frame -> seq<Event>, takes: Frame -> bool, key: Key)
    requires forall f :: PacketsOf(emit(f), key) == Bit(takes(f))
    requires forall f :: BytesOf(emit(f), key) == if takes(f) then |f.data| else 0
    ensures PacketsOf(Collect(emit, frames), key) == |Filter(takes, frames)|
    ensures BytesOf(Collect(emit, frames), key) == CapturedBytes(Filter(takes, frames))
  {
    if frames != [] {
      var front, last := frames[..|frames| - 1], frames[|frames| - 1];
      CountsTaken(front, emit, takes, key);
      TotalsAppend(Collect(emit, front), emit(last), key);
      var mine := Filter(takes, front);
      assert (mine + [last])[..|mine|] == mine;
    }
  }

  /** A flow's totals are the number and the captured bytes of the frames of its conversation. */
  lemma CountsConversation(frames: seq<Frame>, link: Link, c: Conversation)
    requires IsAddress(c.from.addr) && IsAddress(c.to.addr)
    ensures var events, mine := EventsOf(frames, link), FramesOf(frames, link, c);
      && PacketsOf(events, KeyOf(c)) == |mine|
      && BytesOf(events, KeyOf(c)) == CapturedBytes(mine)
  {
    forall f: Frame
      ensures PacketsOf(FrameEvents(link)(f), KeyOf(c)) == Bit(Taker(link, c)(f))
      ensures BytesOf(FrameEvents(link)(f), KeyOf(c)) == if Taker(link, c)(f) then |f.data| else 0
    {
      OneFrameCounts(f, link, c);
    }
    CountsTaken(frames, FrameEvents(link), Taker(link, c), KeyOf(c));
  }
}
