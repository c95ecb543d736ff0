/** What the JSON line of src/output.c says, read back field by field: each value is named by the
    header field or the verdict that it must show. */
module JsonContent {
  import opened Bytes
  import opened Numerals
  import opened Json
  import opened AddressText
  import opened Dissection
  import opened DissectionTheorems
  import opened FrameRoundTrip
  import opened Headers
  import Dns = DnsMessage
  import opened DnsRoundTrip
  import Statistics
  import opened JsonLine

  // ----- Reading an object -----

  /** All values that an object holds under a key. */
  function Values(fields: seq<Field>, key: string): seq<Json> {
    if fields == [] then []
    else (if fields[0].key == key then [fields[0].value] else []) + Values(fields[1..], key)
  }

  /** The object holds the key once, with this value. */
  predicate Holds(fields: seq<Field>, key: string, value: Json) {
    Values(fields, key) == [value]
  }

  predicate Lacks(fields: seq<Field>, key: string) {
    Values(fields, key) == []
  }

  lemma Regroup(a: seq<Json>, b: seq<Json>, c: seq<Json>)
    ensures a + (b + c) == (a + b) + c
  {
  }

  lemma {:induction false} ValuesAppend(a: seq<Field>, b: seq<Field>, key: string)
    ensures Values(a + b, key) == Values(a, key) + Values(b, key)
  {
    if a == [] {
      assert a + b == b;
    } else {
      var first := if a[0].key == key then [a[0].value] else [];
      assert (a + b)[1..] == a[1..] + b;
      ValuesAppend(a[1..], b, key);
      Regroup(first, Values(a[1..], key), Values(b, key));
    }
  }

  lemma ValuesOfOne(f: Field, key: string)
    ensures Values([f], key) == if f.key == key then [f.value] else []
  {
    assert [f][1..] == [];
  }

  lemma ValuesOfTwo(f: Field, g: Field, key: string)
    ensures Values([f, g], key) ==
            (if f.key == key then [f.value] else []) + (if g.key == key then [g.value] else [])
  {
    assert [f, g][1..] == [g];
    ValuesOfOne(g, key);
  }

  // ----- Endpoints -----

  /** The address's text, from which its bytes are read back, and its port, if there is one. */
  ghost predicate EndpointSays(j: Json, addr: seq<byte>, port: Option<u16>) {
    && j.Obj? && |j.fields| == (if port.Some? then 2 else 1)
    && (exists text ::
          && Holds(j.fields, "ip", Str(text))
          && (|addr| == 4 ==> ReadIPv4(text) == Some(addr))
          && (|addr| == 16 ==> ReadIPv6(text) == Some(addr)))
    && (match port
        case Some(number) => Holds(j.fields, "port", Num(number))
        case None => Lacks(j.fields, "port"))
  }

  lemma EndpointShows(addr: seq<byte>, port: Option<u16>)
    requires Statistics.IsAddress(addr)
    ensures EndpointSays(EndpointJson(addr, port), addr, port)
  {
    hide IPv4Text, IPv6Text, ReadIPv4, ReadIPv6;
    var text := Statistics.TextOf(addr);
    var ip := Field("ip", Str(text));
    assert "ip" != "port" by {
      assert |"ip"| != |"port"|;
    }
    if |addr| == 4 {
      AddressText.IPv4RoundTrip(addr);
    } else {
      AddressText.IPv6RoundTrip(addr);
    }
    if port.Some? {
      var number := Field("port", Num(port.value));
      assert [ip] + [number] == [ip, number];
      ValuesOfTwo(ip, number, "ip");
      ValuesOfTwo(ip, number, "port");
    } else {
      assert [ip] + [] == [ip];
      ValuesOfOne(ip, "ip");
      ValuesOfOne(ip, "port");
    }
    assert Holds(EndpointJson(addr, port).fields, "ip", Str(text));
  }

  // ----- Flags -----

  predicate BitSet(flags: byte, bit: nat)
    requires bit > 0
  {
    flags / bit % 2 == 1
  }

  predicate EachFlagSays(items: seq<Json>, flags: byte) {
    && (Str("FIN") in items <==> BitSet(flags, 1)) && (Str("SYN") in items <==> BitSet(flags, 2))
    && (Str("RST") in items <==> BitSet(flags, 4)) && (Str("PSH") in items <==> BitSet(flags, 8))
    && (Str("ACK") in items <==> BitSet(flags, 16)) && (Str("URG") in items <==> BitSet(flags, 32))
    && (Str("ECE") in items <==> BitSet(flags, 64)) && (Str("CWR") in items <==> BitSet(flags, 128))
  }

  predicate IsFlagName(j: Json) {
    || j == Str("FIN") || j == Str("SYN") || j == Str("RST") || j == Str("PSH")
    || j == Str("ACK") || j == Str("URG") || j == Str("ECE") || j == Str("CWR")
  }

  /** The array holds the name of each set flag, once, and nothing else. */
  predicate FlagsSay(items: seq<Json>, flags: byte) {
    && EachFlagSays(items, flags)
    && (forall i :: 0 <= i < |items| ==> IsFlagName(items[i]))
    && (forall i, k :: 0 <= i < k < |items| ==> items[i] != items[k])
  }

  /** In a table of distinct names, a name is listed exactly when its bit is set. */
  lemma {:induction false} FlagListed(table: seq<Flag>, flags: byte, n: nat)
    requires n <= |table| && forall i, k :: 0 <= i < k < |table| ==> table[i].name != table[k].name
    ensures var items := FlagNames(table, flags, n);
      && (forall i :: 0 <= i < n ==> (Str(table[i].name) in items <==> IsSet(flags, table[i].bit)))
      && (forall k :: 0 <= k < |items| ==> exists i :: 0 <= i < n && items[k] == Str(table[i].name))
      && (forall i, k :: 0 <= i < k < |items| ==> items[i] != items[k])
  {
    hide IsSet;
    if n > 0 {
      FlagListed(table, flags, n - 1);
      var front := FlagNames(table, flags, n - 1);
      assert Str(table[n - 1].name) !in front;
    }
  }

  lemma FlagTable()
    ensures |FLAGS| == 8 && forall i, k :: 0 <= i < k < |FLAGS| ==> FLAGS[i].name != FLAGS[k].name
  {
    forall i, k | 0 <= i < k < 8
      ensures FLAGS[i].name != FLAGS[k].name
    {
      assert FLAGS[i].name[0] != FLAGS[k].name[0] || FLAGS[i].name[1] != FLAGS[k].name[1];
    }
  }

  lemma FlagRows()
    ensures |FLAGS| == 8
    ensures FLAGS[0] == Flag(2, "SYN") && FLAGS[1] == Flag(16, "ACK") && FLAGS[2] == Flag(1, "FIN")
    ensures FLAGS[3] == Flag(4, "RST") && FLAGS[4] == Flag(8, "PSH") && FLAGS[5] == Flag(32, "URG")
    ensures FLAGS[6] == Flag(64, "ECE") && FLAGS[7] == Flag(128, "CWR")
    ensures forall i :: 0 <= i < 8 ==> IsFlagName(Str(FLAGS[i].name))
  {
  }

  lemma FlagsShow(flags: byte)
    ensures FlagsSay(FlagNames(FLAGS, flags, |FLAGS|), flags)
  {
    hide FlagNames, IsFlagName, FLAGS;
    FlagTable();
    FlagRows();
    FlagListed(FLAGS, flags, 8);
  }

  // ----- The whole object -----

  function PortFrom(t: Transport): Option<u16> {
    match t
    case OverTcp(h) => Some(h.sourcePort)
    case OverUdp(h) => Some(h.sourcePort)
    case _ => None
  }

  function PortTo(t: Transport): Option<u16> {
    match t
    case OverTcp(h) => Some(h.destinationPort)
    case OverUdp(h) => Some(h.destinationPort)
    case _ => None
  }

  ghost predicate EndpointsSay(fields: seq<Field>, source: seq<byte>, destination: seq<byte>, t: Transport) {
    exists from, to ::
      && Holds(fields, "source", from) && EndpointSays(from, source, PortFrom(t))
      && Holds(fields, "destination", to) && EndpointSays(to, destination, PortTo(t))
  }

  /** Source and destination are those of an IP header, and absent without one. */
  ghost predicate NetworkSays(fields: seq<Field>, n: Network, t: Transport) {
    match n
    case OverIPv4(h) => EndpointsSay(fields, h.source, h.destination, t)
    case OverIPv6(h) => EndpointsSay(fields, h.source, h.destination, t)
    case _ => Lacks(fields, "source") && Lacks(fields, "destination")
  }

  ghost predicate TcpSays(fields: seq<Field>, t: Transport) {
    match t
    case OverTcp(h) =>
      exists items ::
        Holds(fields, "tcp", Obj([Field("flags", Arr(items))])) && FlagsSay(items, h.flags)
    case _ => Lacks(fields, "tcp")
  }

  /** The type's name, or its number behind "TYPE". */
  predicate TypeSays(text: string, qtype: u16) {
    && (qtype == 1 ==> text == "A") && (qtype == 2 ==> text == "NS") && (qtype == 5 ==> text == "CNAME")
    && (qtype == 12 ==> text == "PTR") && (qtype == 15 ==> text == "MX") && (qtype == 16 ==> text == "TXT")
    && (qtype == 28 ==> text == "AAAA")
    && (qtype !in {1, 2, 5, 12, 15, 16, 28} ==>
          "TYPE" <= text && AllDigits(text[4..], 10) && Value(text[4..], 10) == qtype)
  }

  /** The first question, as a C string, and its type. */
  ghost predicate DnsSays(fields: seq<Field>, dns: Option<Dns.Info>) {
    if dns.None? || dns.value.questions == [] then Lacks(fields, "dns")
    else
      var q := dns.value.questions[0];
      exists kind ::
        && Holds(fields, "dns", Obj([Field("question", Str(CString(q.name))), Field("type", Str(kind))]))
        && TypeSays(kind, q.qtype)
  }

  /** The innermost layer that was decoded. */
  predicate ProtocolSays(name: string, p: Packet) {
    && (p.dns.Some? ==> name == "DNS")
    && (p.dns.None? ==>
          && (p.transport.OverTcp? ==> name == "TCP") && (p.transport.OverUdp? ==> name == "UDP")
          && (p.transport.OverIcmp? ==> name == "ICMP") && (p.transport.OverIcmpv6? ==> name == "ICMPv6")
          && (p.transport.NoTransport? ==>
                && (p.network.OverArp? ==> name == "ARP") && (p.network.OverIPv4? ==> name == "IPv4")
                && (p.network.OverIPv6? ==> name == "IPv6") && (p.network.NoNetwork? ==> name == "Unknown")))
  }

  ghost predicate BaseSays(fields: seq<Field>, p: Packet, timestamp: string) {
    && Holds(fields, "timestamp", Str(timestamp))
    && Holds(fields, "captured_length", Num(p.capturedLength))
    && Holds(fields, "malformed", Bool(p.malformed.Some?))
    && exists name :: Holds(fields, "protocol", Str(name)) && ProtocolSays(name, p)
  }

  /** The place of a key in the line. */
  function Rank(key: string): nat {
    if key == "timestamp" then 0 else if key == "captured_length" then 1 else if key == "malformed" then 2
    else if key == "protocol" then 3 else if key == "source" then 4 else if key == "destination" then 5
    else if key == "tcp" then 6 else if key == "dns" then 7 else 8
  }

  /** All keys are among those numbered from `lo` up to `hi`. */
  predicate RanksWithin(fields: seq<Field>, lo: nat, hi: nat) {
    forall i :: 0 <= i < |fields| ==> lo <= Rank(fields[i].key) < hi
  }

  /** Everything that the object says; it has no other keys than these eight. */
  ghost predicate Says(fields: seq<Field>, p: Packet, timestamp: string) {
    && BaseSays(fields, p, timestamp)
    && NetworkSays(fields, p.network, p.transport)
    && TcpSays(fields, p.transport)
    && DnsSays(fields, p.dns)
    && RanksWithin(fields, 0, 8)
  }

  // ----- The parts of the object -----

  lemma Ranks()
    ensures Rank("timestamp") == 0 && Rank("captured_length") == 1 && Rank("malformed") == 2
    ensures Rank("protocol") == 3 && Rank("source") == 4 && Rank("destination") == 5
    ensures Rank("tcp") == 6 && Rank("dns") == 7
  {
    assert |"timestamp"| == |"malformed"| == 9 && |"captured_length"| == 15 && |"protocol"| == 8;
    assert |"source"| == 6 && |"destination"| == 11 && |"tcp"| == |"dns"| == 3;
    assert "timestamp"[0] != "malformed"[0] && "tcp"[0] != "dns"[0];
  }

  lemma {:induction false} OthersAbsent(fields: seq<Field>, lo: nat, hi: nat, key: string)
    requires RanksWithin(fields, lo, hi) && !(lo <= Rank(key) < hi)
    ensures Values(fields, key) == []
  {
    hide Rank;
    if fields != [] {
      OthersAbsent(fields[1..], lo, hi, key);
    }
  }

  lemma ValuesOfFour(a: Field, b: Field, c: Field, d: Field, key: string)
    ensures Values([a, b, c, d], key) ==
            (if a.key == key then [a.value] else []) + (if b.key == key then [b.value] else []) +
            ((if c.key == key then [c.value] else []) + (if d.key == key then [d.value] else []))
  {
    assert [a, b, c, d] == [a, b] + [c, d];
    ValuesAppend([a, b], [c, d], key);
    ValuesOfTwo(a, b, key);
    ValuesOfTwo(c, d, key);
  }

  lemma BaseShows(p: Packet, timestamp: string)
    ensures BaseSays(BaseFields(p, timestamp), p, timestamp) && RanksWithin(BaseFields(p, timestamp), 0, 4)
  {
    hide ProtocolName, ProtocolSays, Rank, Values;
    var f := BaseFields(p, timestamp);
    Ranks();
    ProtocolShows(p);
    ValuesOfFour(f[0], f[1], f[2], f[3], "timestamp");
    ValuesOfFour(f[0], f[1], f[2], f[3], "captured_length");
    ValuesOfFour(f[0], f[1], f[2], f[3], "malformed");
    ValuesOfFour(f[0], f[1], f[2], f[3], "protocol");
    assert f == [f[0], f[1], f[2], f[3]];
    assert Holds(f, "protocol", Str(ProtocolName(p)));
  }

  lemma ProtocolShows(p: Packet)
    ensures ProtocolSays(ProtocolName(p), p)
  {
  }

  lemma AddressesShow(source: seq<byte>, destination: seq<byte>, t: Transport)
    requires Statistics.IsAddress(source) && Statistics.IsAddress(destination)
    ensures EndpointsSay(AddressFields(source, destination, PortsOf(t)), source, destination, t)
    ensures RanksWithin(AddressFields(source, destination, PortsOf(t)), 4, 6)
  {
    hide EndpointJson, EndpointSays, Values;
    var ports := PortsOf(t);
    assert ports == Ports(PortFrom(t), PortTo(t));
    var from, to := EndpointJson(source, ports.source), EndpointJson(destination, ports.destination);
    EndpointShows(source, ports.source);
    EndpointShows(destination, ports.destination);
    Ranks();
    var f, g := Field("source", from), Field("destination", to);
    ValuesOfTwo(f, g, "source");
    ValuesOfTwo(f, g, "destination");
    assert Holds([f, g], "source", from) && Holds([f, g], "destination", to);
  }

  lemma NetworkShows(p: Packet)
    requires WellAddressed(p.network)
    ensures NetworkSays(NetworkFields(p), p.network, p.transport) && RanksWithin(NetworkFields(p), 4, 6)
  {
    hide AddressFields, EndpointsSay, PortsOf;
    match p.network
    case OverIPv4(h) => AddressesShow(h.source, h.destination, p.transport);
    case OverIPv6(h) => AddressesShow(h.source, h.destination, p.transport);
    case _ =>
  }

  lemma TcpShows(p: Packet)
    ensures TcpSays(TcpFields(p), p.transport) && RanksWithin(TcpFields(p), 6, 7)
  {
    hide FlagNames, FlagsSay;
    Ranks();
    if p.transport.OverTcp? {
      var items := FlagNames(FLAGS, p.transport.tcp.flags, |FLAGS|);
      FlagsShow(p.transport.tcp.flags);
      var f := Field("tcp", Obj([Field("flags", Arr(items))]));
      ValuesOfOne(f, "tcp");
      assert Holds([f], "tcp", Obj([Field("flags", Arr(items))]));
    }
  }

  lemma TypeShows(qtype: u16)
    ensures TypeSays(TypeName(qtype), qtype)
  {
    if qtype !in {1, 2, 5, 12, 15, 16, 28} {
      var digits := Digits(qtype, 10);
      ReadDigits(qtype, 10);
      assert ("TYPE" + digits)[4..] == digits;
    }
  }

  lemma DnsShows(p: Packet)
    ensures DnsSays(DnsFields(p), p.dns) && RanksWithin(DnsFields(p), 7, 8)
  {
    hide TypeName, TypeSays, CString;
    Ranks();
    if p.dns.Some? && p.dns.value.questions != [] {
      var q := p.dns.value.questions[0];
      TypeShows(q.qtype);
      var f := Field("dns", DnsJson(q));
      ValuesOfOne(f, "dns");
      assert Holds([f], "dns", Obj([Field("question", Str(CString(q.name))), Field("type", Str(TypeName(q.qtype)))]));
    }
  }

  /** Fields with other keys, in front or behind, change nothing. */
  lemma Among(a: seq<Field>, b: seq<Field>, c: seq<Field>, lo: nat, hi: nat, key: string)
    requires lo <= Rank(key) < hi && RanksWithin(a, 0, lo) && RanksWithin(c, hi, 8)
    ensures Values(a + b + c, key) == Values(b, key)
  {
    hide Rank;
    ValuesAppend(a + b, c, key);
    ValuesAppend(a, b, key);
    OthersAbsent(a, 0, lo, key);
    OthersAbsent(c, hi, 8, key);
  }

  lemma WithinAppend(a: seq<Field>, b: seq<Field>, lo: nat, mid: nat, hi: nat)
    requires lo <= mid <= hi && RanksWithin(a, lo, mid) && RanksWithin(b, mid, hi)
    ensures RanksWithin(a + b, lo, hi)
  {
    hide Rank;
  }

  /** What a part of the object says, the whole object says. */
  lemma BaseKept(base: seq<Field>, rest: seq<Field>, p: Packet, timestamp: string)
    requires BaseSays(base, p, timestamp) && RanksWithin(rest, 4, 8)
    ensures BaseSays(base + rest, p, timestamp)
  {
    hide Rank, ProtocolSays, Values;
    Ranks();
    assert [] + base + rest == base + rest;
    Among([], base, rest, 0, 4, "timestamp");
    Among([], base, rest, 0, 4, "captured_length");
    Among([], base, rest, 0, 4, "malformed");
    Among([], base, rest, 0, 4, "protocol");
    var name :| Holds(base, "protocol", Str(name)) && ProtocolSays(name, p);
    assert Holds(base + rest, "protocol", Str(name));
  }

  lemma EndpointsKept(a: seq<Field>, b: seq<Field>, c: seq<Field>,
                      source: seq<byte>, destination: seq<byte>, t: Transport)
    requires EndpointsSay(b, source, destination, t) && RanksWithin(a, 0, 4) && RanksWithin(c, 6, 8)
    ensures EndpointsSay(a + b + c, source, destination, t)
  {
    hide Rank, EndpointSays, Values;
    Ranks();
    Among(a, b, c, 4, 6, "source");
    Among(a, b, c, 4, 6, "destination");
    var from, to :|
      && Holds(b, "source", from) && EndpointSays(from, source, PortFrom(t))
      && Holds(b, "destination", to) && EndpointSays(to, destination, PortTo(t));
    assert Holds(a + b + c, "source", from) && Holds(a + b + c, "destination", to);
  }

  lemma NetworkKept(a: seq<Field>, b: seq<Field>, c: seq<Field>, n: Network, t: Transport)
    requires NetworkSays(b, n, t) && RanksWithin(a, 0, 4) && RanksWithin(c, 6, 8)
    ensures NetworkSays(a + b + c, n, t)
  {
    hide Rank, EndpointsSay, Values;
    Ranks();
    match n
    case OverIPv4(h) => EndpointsKept(a, b, c, h.source, h.destination, t);
    case OverIPv6(h) => EndpointsKept(a, b, c, h.source, h.destination, t);
    case _ =>
      Among(a, b, c, 4, 6, "source");
      Among(a, b, c, 4, 6, "destination");
  }

  lemma UpperKept(a: seq<Field>, tcp: seq<Field>, dns: seq<Field>, t: Transport, info: Option<Dns.Info>)
    requires TcpSays(tcp, t) && DnsSays(dns, info)
    requires RanksWithin(a, 0, 6) && RanksWithin(tcp, 6, 7) && RanksWithin(dns, 7, 8)
    ensures TcpSays(a + tcp + dns, t) && DnsSays(a + tcp + dns, info)
  {
    hide Rank, FlagsSay, TypeSays, CString, Values;
    Ranks();
    Among(a, tcp, dns, 6, 7, "tcp");
    WithinAppend(a, tcp, 0, 6, 7);
    assert a + tcp + dns + [] == a + tcp + dns;
    Among(a + tcp, dns, [], 7, 8, "dns");
  }

  lemma PartsShow(p: Packet, timestamp: string)
    requires WellAddressed(p.network)
    ensures PacketJson(p, timestamp).Obj? && Says(PacketJson(p, timestamp).fields, p, timestamp)
  {
    hide BaseFields, NetworkFields, TcpFields, DnsFields, BaseSays, NetworkSays, TcpSays, DnsSays, RanksWithin;
    var base, net, tcp, dns := BaseFields(p, timestamp), NetworkFields(p), TcpFields(p), DnsFields(p);
    BaseShows(p, timestamp);
    NetworkShows(p);
    TcpShows(p);
    DnsShows(p);
    WithinAppend(tcp, dns, 6, 7, 8);
    WithinAppend(net, tcp + dns, 4, 6, 8);
    WithinAppend(base, net, 0, 4, 6);
    WithinAppend(base, net + (tcp + dns), 0, 4, 8);
    BaseKept(base, net + (tcp + dns), p, timestamp);
    NetworkKept(base, net, tcp + dns, p.network, p.transport);
    UpperKept(base + net, tcp, dns, p.transport, p.dns);
    assert base + (net + (tcp + dns)) == base + net + (tcp + dns) == base + net + tcp + dns;
  }

  // ----- The line -----

  /** The line that `PrintJsonLine` writes for a captured frame. */
  function LineOf(data: seq<byte>, original: nat, link: Link, timestamp: string): string {
    DissectionIsWellLayered(data, original, link);
    Render(PacketJson(Dissect(data, original, link), timestamp)) + "\n"
  }

  /** A JSON reader finds in the line of any frame what was decoded from the frame: the verdict, the
      innermost protocol, addresses and ports in their own direction, the TCP flags that are set and
      the first DNS question, each under its key, once. */
  lemma LineSays(data: seq<byte>, original: nat, link: Link, timestamp: string)
    requires IsCText(timestamp)
    ensures var r := ReadValue(LineOf(data, original, link, timestamp));
      && r.Read? && r.rest == "\n" && r.value.Obj?
      && Says(r.value.fields, Dissect(data, original, link), timestamp)
  {
    hide Dissect, ReadValue, Render, PacketJson, Says, WellAddressed;
    LineIsOneObject(data, original, link, timestamp);
    DissectionIsWellLayered(data, original, link);
    PartsShow(Dissect(data, original, link), timestamp);
  }

  /** In particular, of a frame in which these headers are written: their addresses, ports and flags,
      no fault, and the DNS message in the payload. */
  lemma WrittenFrameLine(data: seq<byte>, original: nat, timestamp: string,
                         e: Ethernet, n: Network, t: Transport, next: nat)
    requires IsCText(timestamp) && FrameWritten(data, e, n, t, next)
    ensures next + TransportLength(t) <= |data|
    ensures var r := ReadValue(LineOf(data, original, EthernetLink, timestamp));
      && r.Read? && r.rest == "\n" && r.value.Obj?
      && Holds(r.value.fields, "captured_length", Num(|data|))
      && Holds(r.value.fields, "malformed", Bool(false))
      && NetworkSays(r.value.fields, n, t)
      && TcpSays(r.value.fields, t)
      && DnsSays(r.value.fields, DnsShown(data[next + TransportLength(t)..], t))
  {
    hide Dissect, ReadValue, LineOf, NetworkSays, TcpSays, DnsSays, FrameWritten, DnsShown, Holds;
    FrameRoundTrip.FrameRoundTrip(data, original, e, n, t, next);
    LineSays(data, original, EthernetLink, timestamp);
  }

  /** The question shown is the first one written in the message. */
  lemma ShownQuestion(message: seq<byte>, q: Query, next: nat)
    requires Dns.Message(message).Parsed? && Dns.Message(message).value.questions != []
    requires QueryAt(message, 12, q, next)
    ensures Dns.Message(message).value.questions[0] == QuestionOf(q)
  {
    hide QueryAt, Dns.QuestionAt;
    QuestionRoundTrip(message, 12, q, next);
    assert Dns.Questions(message)(12) == Parsed(QuestionOf(q), next);
  }
}
