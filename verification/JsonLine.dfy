/** The JSON line of one packet (`json_write_escaped`, `print_json_line`, src/output.c). */
module JsonLine {
  import opened Bytes
  import opened Numerals
  import opened Json
  import opened AddressText
  import opened Dissection
  import opened DissectionTheorems
  import Dns = DnsMessage
  import opened DnsName
  import opened Statistics

  // ----- What the line says -----

  /** `top_protocol` and `ns_proto_name`. */
  function ProtocolName(p: Packet): string {
    if p.dns.Some? then "DNS"
    else
      match p.transport
      case OverTcp(_) => "TCP"
      case OverUdp(_) => "UDP"
      case OverIcmp(_) => "ICMP"
      case OverIcmpv6(_) => "ICMPv6"
      case NoTransport =>
        match p.network
        case OverArp(_) => "ARP"
        case OverIPv4(_) => "IPv4"
        case OverIPv6(_) => "IPv6"
        case NoNetwork => "Unknown"
  }

  /** `ns_dns_type_name`. */
  function TypeName(t: u16): string {
    if t == Dns.TYPE_A then "A"
    else if t == Dns.TYPE_NS then "NS"
    else if t == Dns.TYPE_CNAME then "CNAME"
    else if t == Dns.TYPE_PTR then "PTR"
    else if t == Dns.TYPE_MX then "MX"
    else if t == Dns.TYPE_TXT then "TXT"
    else if t == Dns.TYPE_AAAA then "AAAA"
    else "TYPE" + Digits(t, 10)
  }

  datatype Flag = Flag(bit: nat, name: string)

  const FLAGS: seq<Flag> := [Flag(0x02, "SYN"), Flag(0x10, "ACK"), Flag(0x01, "FIN"), Flag(0x04, "RST"),
                             Flag(0x08, "PSH"), Flag(0x20, "URG"), Flag(0x40, "ECE"), Flag(0x80, "CWR")]

  /** The names of the flags that are set, among the first `n` of a table. */
  function FlagNames(table: seq<Flag>, flags: byte, n: nat): seq<Json>
    requires n <= |table|
  {
    if n == 0 then []
    else
      var front := FlagNames(table, flags, n - 1);
      if IsSet(flags, table[n - 1].bit) then front + [Str(table[n - 1].name)] else front
  }

  predicate IsSet(flags: byte, bit: nat) {
    bit > 0 && flags / bit % 2 == 1
  }

  function EndpointJson(addr: seq<byte>, port: Option<u16>): Json
    requires IsAddress(addr)
  {
    Obj([Field("ip", Str(TextOf(addr)))] + (if port.Some? then [Field("port", Num(port.value))] else []))
  }

  datatype Ports = Ports(source: Option<u16>, destination: Option<u16>)

  function PortsOf(t: Transport): Ports {
    match t
    case OverTcp(h) => Ports(Some(h.sourcePort), Some(h.destinationPort))
    case OverUdp(h) => Ports(Some(h.sourcePort), Some(h.destinationPort))
    case _ => Ports(None, None)
  }

  function AddressFields(source: seq<byte>, destination: seq<byte>, ports: Ports): seq<Field>
    requires IsAddress(source) && IsAddress(destination)
  {
    [Field("source", EndpointJson(source, ports.source)),
     Field("destination", EndpointJson(destination, ports.destination))]
  }

  function NetworkFields(p: Packet): seq<Field>
    requires WellAddressed(p.network)
  {
    match p.network
    case OverIPv4(h) => AddressFields(h.source, h.destination, PortsOf(p.transport))
    case OverIPv6(h) => AddressFields(h.source, h.destination, PortsOf(p.transport))
    case _ => []
  }

  function TcpFields(p: Packet): seq<Field> {
    match p.transport
    case OverTcp(h) => [Field("tcp", Obj([Field("flags", Arr(FlagNames(FLAGS, h.flags, |FLAGS|)))]))]
    case _ => []
  }

  function DnsJson(q: Dns.Question): Json {
    Obj([Field("question", Str(CString(q.name))), Field("type", Str(TypeName(q.qtype)))])
  }

  function DnsFields(p: Packet): seq<Field> {
    if p.dns.Some? && p.dns.value.questions != [] then [Field("dns", DnsJson(p.dns.value.questions[0]))] else []
  }

  function BaseFields(p: Packet, timestamp: string): seq<Field> {
    [Field("timestamp", Str(timestamp)), Field("captured_length", Num(p.capturedLength)),
     Field("malformed", Bool(p.malformed.Some?)), Field("protocol", Str(ProtocolName(p)))]
  }

  /** The object printed for a packet. */
  function PacketJson(p: Packet, timestamp: string): Json
    requires WellAddressed(p.network)
  {
    Obj(BaseFields(p, timestamp) + NetworkFields(p) + TcpFields(p) + DnsFields(p))
  }

  // ----- Writing it -----

  lemma {:induction false} EscapeAppend(a: string, b: string)
    ensures EscapeAll(a + b) == EscapeAll(a) + EscapeAll(b)
  {
    if a == "" {
      assert a + b == b;
    } else {
      assert (a + b)[1..] == a[1..] + b;
      EscapeAppend(a[1..], b);
    }
  }

  /** The first `n` characters, escaped. */
  function EscapeFirst(s: string, n: nat): string
    requires n <= |s|
  {
    if n == 0 then "" else EscapeFirst(s, n - 1) + Escape(s[n - 1])
  }

  lemma {:induction false} EscapeFirstIs(s: string, n: nat)
    requires n <= |s|
    ensures EscapeFirst(s, n) == EscapeAll(s[..n])
  {
    hide Escape;
    if n > 0 {
      EscapeFirstIs(s, n - 1);
      EscapeAppend(s[..n - 1], [s[n - 1]]);
      assert s[..n] == s[..n - 1] + [s[n - 1]];
      assert EscapeAll([s[n - 1]]) == Escape(s[n - 1]) + EscapeAll("");
    }
  }

  /** The loop of `json_write_escaped`: everything in front of the first NUL, escaped. */
  method EscapeLoop(s: string) returns (body: string, n: nat)
    ensures n <= |s| && (forall k :: 0 <= k < n ==> s[k] != '\0') && (n < |s| ==> s[n] == '\0')
    ensures body == EscapeFirst(s, n)
  {
    hide Escape;
    body, n := "", 0;
    while n < |s| && s[n] != '\0'
      invariant n <= |s| && forall k :: 0 <= k < n ==> s[k] != '\0'
      invariant body == EscapeFirst(s, n)
    {
      body := body + Escape(s[n]);
      n := n + 1;
    }
  }

  /** `json_write_escaped`: the C string at `s`, quoted. */
  method WriteEscaped(s: string) returns (r: string)
    ensures r == Quote(CString(s))
  {
    var body, n := EscapeLoop(s);
    EscapeFirstIs(s, n);
    CStringIs(s, n);
    r := "\"" + body + "\"";
  }

  /** A C text is written whole. */
  method WriteText(s: string) returns (r: string)
    requires IsCText(s)
    ensures r == Render(Str(s))
  {
    CTextIsCString(s);
    r := WriteEscaped(s);
  }

  lemma CStringIs(s: string, n: nat)
    requires n <= |s| && (forall k :: 0 <= k < n ==> s[k] != '\0') && (n < |s| ==> s[n] == '\0')
    ensures CString(s) == s[..n]
  {
    var c := CString(s);
    assert |c| == n;
  }

  lemma CTextIsCString(s: string)
    requires IsCText(s)
    ensures CString(s) == s
  {
    CStringIs(s, |s|);
  }

  /** A name that JSON quotes as it stands. */
  predicate IsPlain(s: string) {
    forall i :: 0 <= i < |s| ==> 0x20 <= s[i] as int < 0x7f && s[i] != '"' && s[i] != '\\'
  }

  lemma {:induction false} PlainQuote(s: string)
    requires IsPlain(s)
    ensures Quote(s) == "\"" + s + "\"" && IsCText(s)
  {
    PlainEscape(s);
  }

  lemma {:induction false} PlainEscape(s: string)
    requires IsPlain(s)
    ensures EscapeAll(s) == s
  {
    if s != "" {
      PlainEscape(s[1..]);
      assert s == [s[0]] + s[1..];
    }
  }

  lemma {:induction false} FieldsAppend(a: seq<Field>, b: seq<Field>)
    ensures RenderFields(a + b) == RenderFields(a) + RenderFields(b)
  {
    if a == [] {
      assert a + b == b;
    } else {
      assert (a + b)[1..] == a[1..] + b;
      FieldsAppend(a[1..], b);
    }
  }

  /** The text of an object whose closing brace is still to come. */
  function OpenObject(fields: seq<Field>): string {
    "{" + Join(RenderFields(fields), ',')
  }

  lemma OpenOne(f: Field)
    ensures OpenObject([f]) == "{" + RenderField(f)
  {
    assert RenderFields([f]) == [RenderField(f)];
  }

  lemma OpenMore(fields: seq<Field>, f: Field)
    requires fields != []
    ensures OpenObject(fields + [f]) == OpenObject(fields) + "," + RenderField(f)
  {
    assert RenderFields([f]) == [RenderField(f)] && Join([RenderField(f)], ',') == RenderField(f);
    hide RenderField, RenderFields, Join;
    FieldsAppend(fields, [f]);
    JoinAppend(RenderFields(fields), [RenderField(f)], ',');
    assert "{" + (Join(RenderFields(fields), ',') + "," + RenderField(f)) ==
           "{" + Join(RenderFields(fields), ',') + "," + RenderField(f);
  }

  /** The opening brace, a key verbatim and its value. */
  method OpenWith(key: string, text: string, ghost value: Json) returns (r: string)
    requires IsPlain(key) && text == Render(value)
    ensures r == OpenObject([Field(key, value)])
  {
    PlainQuote(key);
    OpenOne(Field(key, value));
    r := "{" + ("\"" + key + "\"" + ":" + text);
  }

  /** A comma, a key verbatim and its value. */
  method AddField(out: string, key: string, text: string, ghost value: Json, ghost fields: seq<Field>) returns (r: string)
    requires IsPlain(key) && text == Render(value) && fields != [] && out == OpenObject(fields)
    ensures r == OpenObject(fields + [Field(key, value)])
  {
    PlainQuote(key);
    OpenMore(fields, Field(key, value));
    r := out + "," + ("\"" + key + "\"" + ":" + text);
  }

  lemma {:induction false} JoinIsPlain(fields: seq<string>, sep: char)
    requires IsPlain([sep]) && forall i :: 0 <= i < |fields| ==> IsPlain(fields[i])
    ensures IsPlain(Join(fields, sep))
  {
    if |fields| > 1 {
      JoinIsPlain(fields[1..], sep);
      assert IsPlain(fields[0] + [sep]) by {
        assert [sep][0] == sep;
      }
    }
  }

  lemma DigitsArePlain(s: string, base: nat)
    requires AllDigits(s, base)
    ensures IsPlain(s)
  {
  }

  lemma HexIsPlain(g: seq<Group>)
    ensures IsPlain(Join(HexFields(g), ':'))
  {
    forall i | 0 <= i < |g|
      ensures IsPlain(HexFields(g)[i])
    {
      DigitsArePlain(HexFields(g)[i], 16);
    }
    JoinIsPlain(HexFields(g), ':');
  }

  lemma IPv4IsPlain(addr: seq<byte>)
    ensures IsPlain(IPv4Text(addr))
  {
    forall i | 0 <= i < |addr|
      ensures IsPlain(OctetFields(addr)[i])
    {
      DigitsArePlain(OctetFields(addr)[i], 10);
    }
    JoinIsPlain(OctetFields(addr), '.');
  }

  lemma IPv6IsPlain(addr: seq<byte>)
    requires |addr| == 16
    ensures IsPlain(IPv6Text(addr))
  {
    var g := GroupsOf(addr);
    CompressedIsCanonical(g, 0, 0);
    var run := Compressed(g);
    if run.start < 0 {
      HexIsPlain(g);
    } else {
      HexIsPlain(g[..run.start]);
      HexIsPlain(g[run.start + run.len..]);
    }
  }

  lemma AddressIsPlain(addr: seq<byte>)
    requires IsAddress(addr)
    ensures IsPlain(TextOf(addr)) && IsCText(TextOf(addr))
  {
    if |addr| == 4 {
      IPv4IsPlain(addr);
    } else {
      IPv6IsPlain(addr);
    }
  }

  /** The "source" and "destination" objects. */
  method WriteEndpoint(addr: seq<byte>, port: Option<u16>) returns (r: string)
    requires IsAddress(addr)
    ensures r == Render(EndpointJson(addr, port))
  {
    var text := FormatAddress(addr);
    AddressIsPlain(addr);
    ghost var ip := Field("ip", Str(text));
    var quoted := WriteText(text);
    r := OpenWith("ip", quoted, Str(text));
    if port.Some? {
      r := AddField(r, "port", Digits(port.value, 10), Num(port.value), [ip]);
      assert [ip] + [Field("port", Num(port.value))] == EndpointJson(addr, port).fields;
    } else {
      assert [ip] == EndpointJson(addr, port).fields;
    }
    r := r + "}";
  }

  lemma {:induction false} ItemsAppend(a: seq<Json>, b: seq<Json>)
    ensures RenderItems(a + b) == RenderItems(a) + RenderItems(b)
  {
    if a == [] {
      assert a + b == b;
    } else {
      assert (a + b)[1..] == a[1..] + b;
      ItemsAppend(a[1..], b);
    }
  }

  lemma ItemsMore(items: seq<Json>, item: Json)
    ensures Join(RenderItems(items + [item]), ',') ==
            Join(RenderItems(items), ',') + (if items == [] then "" else ",") + Render(item)
  {
    ItemsAppend(items, [item]);
    assert RenderItems([item]) == [Render(item)];
    if items == [] {
      assert RenderItems(items) + [Render(item)] == [Render(item)];
    } else {
      JoinAppend(RenderItems(items), [Render(item)], ',');
    }
  }

  /** The flag loop: the names of the set flags, separated by commas, for any table of plain names. */
  method WriteFlags(table: seq<Flag>, flags: byte) returns (r: string)
    requires forall i :: 0 <= i < |table| ==> IsPlain(table[i].name)
    ensures r == Render(Arr(FlagNames(table, flags, |table|)))
  {
    var body, first := "", true;
    for i := 0 to |table|
      invariant body == Join(RenderItems(FlagNames(table, flags, i)), ',')
      invariant first <==> FlagNames(table, flags, i) == []
    {
      if IsSet(flags, table[i].bit) {
        ItemsMore(FlagNames(table, flags, i), Str(table[i].name));
        PlainQuote(table[i].name);
        if !first {
          body := body + ",";
        }
        var name := WriteText(table[i].name);
        body := body + name;
        first := false;
      }
    }
    r := "[" + body + "]";
  }

  method WriteTcp(flags: byte) returns (r: string)
    ensures r == Render(Obj([Field("flags", Arr(FlagNames(FLAGS, flags, |FLAGS|)))]))
  {
    var list := WriteFlags(FLAGS, flags);
    r := OpenWith("flags", list, Arr(FlagNames(FLAGS, flags, |FLAGS|)));
    r := r + "}";
  }

  method WriteDns(q: Dns.Question) returns (r: string)
    ensures r == Render(DnsJson(q))
  {
    var name := WriteEscaped(q.name);
    TypeNameIsPlain(q.qtype);
    var kind := WriteText(TypeName(q.qtype));
    r := OpenWith("question", name, Str(CString(q.name)));
    r := AddField(r, "type", kind, Str(TypeName(q.qtype)), [Field("question", Str(CString(q.name)))]);
    assert [Field("question", Str(CString(q.name)))] + [Field("type", Str(TypeName(q.qtype)))] == DnsJson(q).fields;
    r := r + "}";
  }

  lemma TypeNameIsPlain(t: u16)
    ensures IsPlain(TypeName(t)) && IsCText(TypeName(t))
  {
    DigitsArePlain(Digits(t, 10), 10);
  }

  lemma ProtocolNameIsPlain(p: Packet)
    ensures IsPlain(ProtocolName(p)) && IsCText(ProtocolName(p))
  {
  }

  method WriteBase(p: Packet, timestamp: string) returns (r: string)
    requires IsCText(timestamp)
    ensures r == OpenObject(BaseFields(p, timestamp))
  {
    assert IsPlain("timestamp") && IsPlain("captured_length");
    assert Render(Num(p.capturedLength)) == Digits(p.capturedLength, 10);
    hide OpenObject, ProtocolName, Render, Digits, IsPlain;
    ghost var f := BaseFields(p, timestamp);
    var time := WriteText(timestamp);
    r := OpenWith("timestamp", time, Str(timestamp));
    r := AddField(r, "captured_length", Digits(p.capturedLength, 10), Num(p.capturedLength), [f[0]]);
    r := WriteVerdict(r, p, [f[0]] + [f[1]]);
    assert [f[0]] + [f[1]] + [f[2], f[3]] == f;
  }

  method WriteVerdict(out: string, p: Packet, ghost fields: seq<Field>) returns (r: string)
    requires fields != [] && out == OpenObject(fields)
    ensures r == OpenObject(fields + [Field("malformed", Bool(p.malformed.Some?)),
                                      Field("protocol", Str(ProtocolName(p)))])
  {
    hide OpenObject, ProtocolName;
    ghost var verdict := Field("malformed", Bool(p.malformed.Some?));
    r := AddField(out, "malformed", if p.malformed.Some? then "true" else "false", verdict.value, fields);
    ProtocolNameIsPlain(p);
    var name := WriteText(ProtocolName(p));
    r := AddField(r, "protocol", name, Str(ProtocolName(p)), fields + [verdict]);
    assert fields + [verdict] + [Field("protocol", Str(ProtocolName(p)))] ==
           fields + [verdict, Field("protocol", Str(ProtocolName(p)))];
  }

  method WriteAddresses(out: string, source: seq<byte>, destination: seq<byte>, ports: Ports, ghost fields: seq<Field>)
      returns (r: string)
    requires IsAddress(source) && IsAddress(destination)
    requires fields != [] && out == OpenObject(fields)
    ensures r == OpenObject(fields + AddressFields(source, destination, ports))
  {
    hide Render, OpenObject, EndpointJson, IsAddress;
    ghost var from := Field("source", EndpointJson(source, ports.source));
    ghost var to := Field("destination", EndpointJson(destination, ports.destination));
    var text := WriteEndpoint(source, ports.source);
    r := AddField(out, "source", text, from.value, fields);
    text := WriteEndpoint(destination, ports.destination);
    r := AddField(r, "destination", text, to.value, fields + [from]);
    assert fields + [from] + [to] == fields + [from, to];
  }

  method WriteNetwork(out: string, p: Packet, ghost fields: seq<Field>) returns (r: string)
    requires WellAddressed(p.network) && fields != [] && out == OpenObject(fields)
    ensures r == OpenObject(fields + NetworkFields(p))
  {
    match p.network {
      case OverIPv4(h) => r := WriteAddresses(out, h.source, h.destination, PortsOf(p.transport), fields);
      case OverIPv6(h) => r := WriteAddresses(out, h.source, h.destination, PortsOf(p.transport), fields);
      case _ =>
        r := out;
        assert fields + [] == fields;
    }
  }

  /** `print_json_line`, with the formatted timestamp given. */
  method PrintJsonLine(p: Packet, timestamp: string) returns (out: string)
    requires WellAddressed(p.network) && IsCText(timestamp)
    ensures out == Render(PacketJson(p, timestamp)) + "\n"
  {
    hide NetworkFields, DnsJson, FlagNames, ProtocolName;
    ghost var fields := BaseFields(p, timestamp);
    out := WriteBase(p, timestamp);
    out := WriteNetwork(out, p, fields);
    fields := fields + NetworkFields(p);
    if p.transport.OverTcp? {
      var text := WriteTcp(p.transport.tcp.flags);
      out := AddField(out, "tcp", text, TcpFields(p)[0].value, fields);
      assert fields + [TcpFields(p)[0]] == fields + TcpFields(p);
    } else {
      assert fields + TcpFields(p) == fields;
    }
    fields := fields + TcpFields(p);
    if p.dns.Some? && |p.dns.value.questions| > 0 {
      var text := WriteDns(p.dns.value.questions[0]);
      out := AddField(out, "dns", text, DnsFields(p)[0].value, fields);
      assert fields + [DnsFields(p)[0]] == fields + DnsFields(p);
    } else {
      assert fields + DnsFields(p) == fields;
    }
    out := out + "}" + "\n";
  }

  // ----- The line is one JSON object -----

  predicate IsByteText(s: string) {
    forall i :: 0 <= i < |s| ==> s[i] as int < 0x100
  }

  lemma {:induction false} NameIsByteText(labels: seq<Label>)
    ensures IsByteText(NameText(labels))
  {
    if |labels| > 1 {
      NameIsByteText(labels[1..]);
    }
  }

  /** The first question of a decoded message is a C text, whatever bytes its labels hold. */
  lemma FirstQuestionIsByteText(data: seq<byte>)
    requires Dns.Message(data).Parsed? && Dns.Message(data).value.questions != []
    ensures IsByteText(Dns.Message(data).value.questions[0].name)
  {
    assert Dns.Questions(data)(Dns.HEADER_LEN).Parsed?;
    assert Dns.Message(data).value.questions[0] == Dns.Questions(data)(Dns.HEADER_LEN).value;
    NameIsByteText(Decode(data, Dns.HEADER_LEN, Dns.NAME_BUFFER).labels);
  }

  predicate IsCFields(fields: seq<Field>) {
    forall i :: 0 <= i < |fields| ==> IsCText(fields[i].key) && IsCJson(fields[i].value)
  }

  lemma EndpointIsC(addr: seq<byte>, port: Option<u16>)
    requires IsAddress(addr)
    ensures IsCJson(EndpointJson(addr, port))
  {
    AddressIsPlain(addr);
  }

  lemma AddressFieldsAreC(source: seq<byte>, destination: seq<byte>, ports: Ports)
    requires IsAddress(source) && IsAddress(destination)
    ensures IsCFields(AddressFields(source, destination, ports))
  {
    hide EndpointJson, IsCJson;
    EndpointIsC(source, ports.source);
    EndpointIsC(destination, ports.destination);
    assert IsCText("source") && IsCText("destination");
  }

  lemma NetworkFieldsAreC(p: Packet)
    requires WellAddressed(p.network)
    ensures IsCFields(NetworkFields(p))
  {
    hide AddressFields;
    match p.network
    case OverIPv4(h) => AddressFieldsAreC(h.source, h.destination, PortsOf(p.transport));
    case OverIPv6(h) => AddressFieldsAreC(h.source, h.destination, PortsOf(p.transport));
    case _ =>
  }

  lemma {:induction false} FlagNamesAreC(table: seq<Flag>, flags: byte, n: nat)
    requires n <= |table| && forall i :: 0 <= i < |table| ==> IsCText(table[i].name)
    ensures IsCJson(Arr(FlagNames(table, flags, n)))
  {
    if n > 0 {
      FlagNamesAreC(table, flags, n - 1);
    }
  }

  lemma PacketJsonIsC(p: Packet, timestamp: string)
    requires WellAddressed(p.network) && IsCText(timestamp)
    requires p.dns.Some? && p.dns.value.questions != [] ==> IsByteText(p.dns.value.questions[0].name)
    ensures IsCJson(PacketJson(p, timestamp))
  {
    BaseFieldsAreC(p, timestamp);
    NetworkFieldsAreC(p);
    UpperFieldsAreC(p);
    CFieldsAppend(BaseFields(p, timestamp), NetworkFields(p));
    CFieldsAppend(BaseFields(p, timestamp) + NetworkFields(p), TcpFields(p));
    CFieldsAppend(BaseFields(p, timestamp) + NetworkFields(p) + TcpFields(p), DnsFields(p));
  }

  lemma CFieldsAppend(a: seq<Field>, b: seq<Field>)
    requires IsCFields(a) && IsCFields(b)
    ensures IsCFields(a + b)
  {
  }

  lemma BaseFieldsAreC(p: Packet, timestamp: string)
    requires IsCText(timestamp)
    ensures IsCFields(BaseFields(p, timestamp))
  {
    ProtocolNameIsPlain(p);
    assert IsCText("timestamp");
    assert IsCText("captured_length");
    assert IsCText("malformed");
    assert IsCText("protocol");
  }

  lemma UpperFieldsAreC(p: Packet)
    requires p.dns.Some? && p.dns.value.questions != [] ==> IsByteText(p.dns.value.questions[0].name)
    ensures IsCFields(TcpFields(p)) && IsCFields(DnsFields(p))
  {
    hide FlagNames, TypeName, CString;
    if p.transport.OverTcp? {
      FlagNamesAreC(FLAGS, p.transport.tcp.flags, |FLAGS|);
      assert IsCJson(Obj([Field("flags", Arr(FlagNames(FLAGS, p.transport.tcp.flags, |FLAGS|)))]));
    }
    if DnsFields(p) != [] {
      TypeNameIsPlain(p.dns.value.questions[0].qtype);
      assert IsCJson(DnsJson(p.dns.value.questions[0]));
    }
  }

  /** The line printed for any captured frame is one well-formed JSON object, from which a JSON
      reader recovers every printed field, followed by the line's only newline; all bytes in front
      of it are printable seven-bit text. */
  lemma LineIsOneObject(data: seq<byte>, original: nat, link: Link, timestamp: string)
    requires IsCText(timestamp)
    ensures var p := Dissect(data, original, link);
      && WellAddressed(p.network)
      && var j := PacketJson(p, timestamp);
         && ReadValue(Render(j) + "\n") == Read(j, "\n")
         && IsPrintable(Render(j))
  {
    var p := Dissect(data, original, link);
    DissectionIsWellLayered(data, original, link);
    if p.dns.Some? && p.dns.value.questions != [] {
      FirstQuestionIsByteText(data[p.payload.value..]);
    }
    PacketJsonIsC(p, timestamp);
    ReadValueBack(PacketJson(p, timestamp), "\n");
    RenderIsPrintable(PacketJson(p, timestamp));
  }
}
