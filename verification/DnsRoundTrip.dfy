/** Written DNS messages (section 4.1 of RFC 1035), with compressed names or without, and the proof
    that `ns_parse_dns` (src/protocols/dns.c) recovers what they say. */
module DnsRoundTrip {
  import opened Bytes
  import opened Numerals
  import opened AddressText
  import opened DnsName
  import opened DnsNameTheorems
  import opened DnsMessage

  datatype Header = Header(id: u16, flags: u16, authorityCount: u16, additionalCount: u16)

  datatype Query = Query(labels: seq<Label>, qtype: u16, qclass: u16)

  datatype Resource = Resource(labels: seq<Label>, rclass: u16, ttl: u32, rdlength: u16, data: Rdata)

  /** What a record's data can be. */
  datatype Rdata =
    | Address4(addr: seq<byte>)
    | Address6(addr: seq<byte>)
    | Host(kind: u16, labels: seq<Label>)                   // NS, CNAME and PTR
    | Exchange(preference: u16, labels: seq<Label>)         // MX
    | Strings(strings: seq<seq<byte>>)                      // TXT
    | Unreadable(kind: u16)                                 // anything that has no text

  // ----- What is written -----

  /** The name at `pos`, through at most 32 pointers, with text for a `cap`-byte buffer. */
  ghost predicate NameAt(data: seq<byte>, pos: nat, labels: seq<Label>, cap: nat) {
    |NameText(labels)| < cap &&
    exists pointers: nat :: pointers <= 32 && Spells(data, pos, labels, pointers)
  }

  ghost predicate HasName(data: seq<byte>, pos: nat, cap: nat) {
    exists labels :: NameAt(data, pos, labels, cap)
  }

  ghost predicate QueryAt(data: seq<byte>, pos: nat, q: Query, next: nat) {
    && NameAt(data, pos, q.labels, 256)
    && next == NameEnd(data, pos) + 4
    && WrittenAt(data, NameEnd(data, pos), Put16(q.qtype) + Put16(q.qclass))
  }

  function EncodeFixed(r: Resource): seq<byte> {
    Put16(KindOf(r.data)) + (Put16(r.rclass) + (Put32(r.ttl) + Put16(r.rdlength)))
  }

  ghost predicate ResourceAt(data: seq<byte>, pos: nat, r: Resource, next: nat) {
    && NameAt(data, pos, r.labels, 256)
    && var at := NameEnd(data, pos) + 10;
       && next == at + r.rdlength <= |data|
       && WrittenAt(data, at - 10, EncodeFixed(r))
       && RdataAt(data, at, r.rdlength, r.data)
  }

  function KindOf(d: Rdata): u16 {
    match d
    case Address4(_) => 1
    case Address6(_) => 28
    case Host(kind, _) => kind
    case Exchange(_, _) => 15
    case Strings(_) => 16
    case Unreadable(kind) => kind
  }

  predicate IsHostKind(kind: u16) {
    kind == 2 || kind == 5 || kind == 12
  }

  ghost predicate RdataAt(data: seq<byte>, at: nat, rdlength: nat, d: Rdata) {
    match d
    case Address4(addr) => |addr| == rdlength == 4 && WrittenAt(data, at, addr)
    case Address6(addr) => |addr| == rdlength == 16 && WrittenAt(data, at, addr)
    case Host(kind, labels) => IsHostKind(kind) && NameAt(data, at, labels, 263)
    case Exchange(preference, labels) =>
      WrittenAt(data, at, Put16(preference)) && NameAt(data, at + 2, labels, 256)
    case Strings(strings) =>
      && (forall s :: s in strings ==> |s| < 0x100)
      && rdlength == |EncodeStrings(strings)| && WrittenAt(data, at, EncodeStrings(strings))
    case Unreadable(kind) => IsUnreadable(data, at, rdlength, kind)
  }

  /** An address of the wrong size, a name that is not written or not within the limits, or a type
      that the program does not print. */
  ghost predicate IsUnreadable(data: seq<byte>, at: nat, rdlength: nat, kind: u16) {
    if kind == 1 then rdlength != 4
    else if kind == 28 then rdlength != 16
    else if IsHostKind(kind) then !HasName(data, at, 263)
    else if kind == 15 then
      at + 2 > |data| || !HasName(data, at + 2, 256)
    else kind != 16
  }

  function EncodeStrings(strings: seq<seq<byte>>): seq<byte>
    requires forall s :: s in strings ==> |s| < 0x100
  {
    if strings == [] then []
    else
      assert strings[0] in strings;
      [|strings[0]|] + strings[0] + EncodeStrings(strings[1..])
  }

  function Joined(strings: seq<seq<byte>>): seq<byte> {
    if strings == [] then [] else strings[0] + Joined(strings[1..])
  }

  // ----- What the program makes of it -----

  function QuestionOf(q: Query): Question {
    Question(NameText(q.labels), q.qtype, q.qclass)
  }

  function TextOf(d: Rdata, rdlength: nat): string
    requires d.Address4? ==> |d.addr| == 4
    requires d.Address6? ==> |d.addr| == 16
  {
    match d
    case Address4(addr) => IPv4Text(addr)
    case Address6(addr) => IPv6Text(addr)
    case Host(_, labels) => NameText(labels)
    case Exchange(preference, labels) => Digits(preference, 10) + " " + CString(NameText(labels))
    case Strings(strings) => Chars(Joined(strings))[..Min(|Joined(strings)|, 262)]
    case Unreadable(_) => "<" + Digits(rdlength, 10) + " bytes>"
  }

  predicate Sized(r: Resource) {
    (r.data.Address4? ==> |r.data.addr| == 4) && (r.data.Address6? ==> |r.data.addr| == 16)
  }

  function RecordOf(r: Resource): Record
    requires Sized(r)
  {
    Record(NameText(r.labels), KindOf(r.data), r.rclass, r.ttl, r.rdlength, TextOf(r.data, r.rdlength))
  }

  // ----- Names -----

  lemma NameRoundTrip(data: seq<byte>, pos: nat, labels: seq<Label>, cap: nat)
    requires cap >= 65 && NameAt(data, pos, labels, cap)
    ensures Decode(data, pos, cap).status == Ok && Decode(data, pos, cap).labels == labels
  {
    var pointers: nat :| pointers <= MAX_JUMPS && Spells(data, pos, labels, pointers);
    CallersDecodeExactly(data, pos, cap, labels, pointers);
    DecodesExactly(data, pos, cap);
  }

  lemma UnnamedFails(data: seq<byte>, pos: nat, cap: nat)
    requires cap >= 65 && !HasName(data, pos, cap)
    ensures Decode(data, pos, cap).status != Ok
  {
    var w := Decode(data, pos, cap);
    if w.status == Ok {
      DecodesExactly(data, pos, cap);
      var labels: seq<Label>, pointers: nat :| Decodable(data, pos, labels, pointers, cap);
      CallersDecodeExactly(data, pos, cap, labels, pointers);
      assert NameAt(data, pos, labels, cap);
    }
  }

  // ----- Record data -----

  lemma {:induction false} StringsRoundTrip(strings: seq<seq<byte>>)
    requires forall s :: s in strings ==> |s| < 0x100
    ensures TxtBytes(EncodeStrings(strings)) == Joined(strings)
  {
    if strings != [] {
      var first, rest := strings[0], EncodeStrings(strings[1..]);
      var rdata := [|first|] + first + rest;
      StringsRoundTrip(strings[1..]);
      assert rdata[0] == |first|;
      assert rdata[1..1 + |first|] == first && rdata[1 + |first|..] == rest;
    }
  }

  lemma AddressRoundTrip(data: seq<byte>, at: nat, d: Rdata)
    requires d.Address4? || d.Address6?
    requires RdataAt(data, at, |d.addr|, d)
    ensures RdataText(data, at, |d.addr|, KindOf(d)) == TextOf(d, |d.addr|)
  {
    hide Decode, IPv4Text, IPv6Text, TxtBytes, NameData, MxData, Fallback;
    ReadSlice(data, at, d.addr);
  }

  lemma TextRoundTrip(data: seq<byte>, at: nat, strings: seq<seq<byte>>)
    requires forall s :: s in strings ==> |s| < 0x100
    requires WrittenAt(data, at, EncodeStrings(strings))
    ensures RdataText(data, at, |EncodeStrings(strings)|, 16) == Chars(Joined(strings))[..Min(|Joined(strings)|, 262)]
  {
    hide Decode, IPv4Text, IPv6Text, TxtBytes, NameData, MxData, Fallback, EncodeStrings, Joined, Chars;
    ReadSlice(data, at, EncodeStrings(strings));
    StringsRoundTrip(strings);
  }

  lemma ExchangeRoundTrip(data: seq<byte>, at: nat, preference: u16, labels: seq<Label>)
    requires WrittenAt(data, at, Put16(preference)) && NameAt(data, at + 2, labels, 256)
    ensures MxData(data, at) == Some(Digits(preference, 10) + " " + CString(NameText(labels)))
  {
    hide Decode, NameText, CString, Digits;
    ReadPut16(data, at, preference);
    NameRoundTrip(data, at + 2, labels, 256);
  }

  /** Record data prints as its text; the text of an address reads back to its bytes. */
  lemma RdataRoundTrip(data: seq<byte>, at: nat, rdlength: nat, d: Rdata)
    requires InBounds(|data|, at, rdlength) && RdataAt(data, at, rdlength, d)
    ensures RdataText(data, at, rdlength, KindOf(d)) == TextOf(d, rdlength)
    ensures d.Address4? ==> ReadIPv4(TextOf(d, rdlength)) == Some(d.addr)
    ensures d.Address6? ==> ReadIPv6(TextOf(d, rdlength)) == Some(d.addr)
  {
    hide Decode, NameAt, IPv4Text, IPv6Text, ReadIPv4, ReadIPv6, MxData, Digits, CString, NameText, TxtBytes;
    match d
    case Address4(addr) =>
      AddressRoundTrip(data, at, d);
      IPv4RoundTrip(addr);
    case Address6(addr) =>
      AddressRoundTrip(data, at, d);
      IPv6RoundTrip(addr);
    case Strings(strings) => TextRoundTrip(data, at, strings);
    case Host(_, labels) => NameRoundTrip(data, at, labels, 263);
    case Exchange(preference, labels) => ExchangeRoundTrip(data, at, preference, labels);
    case Unreadable(kind) => UnreadableFails(data, at, rdlength, kind);
  }

  lemma UnreadableFails(data: seq<byte>, at: nat, rdlength: nat, kind: u16)
    requires InBounds(|data|, at, rdlength) && IsUnreadable(data, at, rdlength, kind)
    ensures RdataView(data, at, rdlength, kind) == None
  {
    hide Decode, HasName;
    if IsHostKind(kind) {
      UnnamedFails(data, at, 263);
    } else if kind == 15 && at + 2 <= |data| {
      UnnamedFails(data, at + 2, 256);
    }
  }

  // ----- Questions and records -----

  lemma QuestionRoundTrip(data: seq<byte>, pos: nat, q: Query, next: nat)
    requires QueryAt(data, pos, q, next)
    ensures QuestionAt(data, pos) == Parsed(QuestionOf(q), next)
  {
    hide Decode, NameEnd, NameText;
    var end := NameEnd(data, pos);
    NameRoundTrip(data, pos, q.labels, 256);
    WrittenInParts(data, end, Put16(q.qtype), Put16(q.qclass));
    ReadPut16(data, end, q.qtype);
    ReadPut16(data, end + 2, q.qclass);
  }

  lemma FixedRoundTrip(data: seq<byte>, at: nat, r: Resource)
    requires WrittenAt(data, at, EncodeFixed(r))
    ensures at + 10 <= |data|
    ensures U16(data, at) == KindOf(r.data) && U16(data, at + 2) == r.rclass
    ensures U32(data, at + 4) == r.ttl && U16(data, at + 8) == r.rdlength
  {
    WrittenInParts(data, at, Put16(KindOf(r.data)), Put16(r.rclass) + (Put32(r.ttl) + Put16(r.rdlength)));
    WrittenInParts(data, at + 2, Put16(r.rclass), Put32(r.ttl) + Put16(r.rdlength));
    WrittenInParts(data, at + 4, Put32(r.ttl), Put16(r.rdlength));
    ReadPut16(data, at, KindOf(r.data));
    ReadPut16(data, at + 2, r.rclass);
    ReadPut32(data, at + 4, r.ttl);
    ReadPut16(data, at + 8, r.rdlength);
  }

  lemma ResourceRoundTrip(data: seq<byte>, pos: nat, r: Resource, next: nat)
    requires ResourceAt(data, pos, r, next)
    ensures Sized(r) && RecordAt(data, pos) == Parsed(RecordOf(r), next)
  {
    hide Decode, NameEnd, NameText, NameAt, RdataText, TextOf, EncodeFixed, U16, U32, KindOf, WrittenAt;
    var at := NameEnd(data, pos);
    NameRoundTrip(data, pos, r.labels, 256);
    FixedRoundTrip(data, at, r);
    RdataRoundTrip(data, at + 10, r.rdlength, r.data);
  }

  // ----- Sections and the whole message -----

  /** Items that lie one behind the other are read one behind the other. */
  lemma {:induction false} SectionRoundTrip<T>(read: nat -> Parsed<T>, ats: seq<nat>, items: seq<T>)
    requires |ats| == |items| + 1
    requires forall i :: 0 <= i < |items| ==> read(ats[i]) == Parsed(items[i], ats[i + 1])
    ensures Section(read, ats[0], |items|) == Parsed(items, ats[|items|])
    decreases |items|
  {
    if items != [] {
      assert read(ats[0]) == Parsed(items[0], ats[1]);
      SectionRoundTrip(read, ats[1..], items[1..]);
      assert items == [items[0]] + items[1..];
    }
  }

  function EncodeHeader(h: Header, questions: u16, answers: u16): seq<byte> {
    Put16(h.id) + Put16(h.flags) + Put16(questions) + Put16(answers) +
    Put16(h.authorityCount) + Put16(h.additionalCount)
  }

  lemma HeaderRoundTrip(h: Header, questions: u16, answers: u16, data: seq<byte>)
    requires EncodeHeader(h, questions, answers) <= data
    ensures |data| >= 12
    ensures U16(data, 0) == h.id && U16(data, 2) == h.flags
    ensures U16(data, 4) == questions && U16(data, 6) == answers
    ensures U16(data, 8) == h.authorityCount && U16(data, 10) == h.additionalCount
  {
  }

  /** The questions lie one behind the other from `ats[0]` on. */
  ghost predicate QueriesAt(data: seq<byte>, ats: seq<nat>, qs: seq<Query>) {
    |ats| == |qs| + 1 && forall i :: 0 <= i < |qs| ==> QueryAt(data, ats[i], qs[i], ats[i + 1])
  }

  ghost predicate ResourcesAt(data: seq<byte>, ats: seq<nat>, rs: seq<Resource>) {
    |ats| == |rs| + 1 && forall i :: 0 <= i < |rs| ==> ResourceAt(data, ats[i], rs[i], ats[i + 1])
  }

  function QuestionsOf(qs: seq<Query>): seq<Question> {
    seq(|qs|, i requires 0 <= i < |qs| => QuestionOf(qs[i]))
  }

  function RecordsOf(rs: seq<Resource>): seq<Record>
    requires forall i :: 0 <= i < |rs| ==> Sized(rs[i])
  {
    seq(|rs|, i requires 0 <= i < |rs| => RecordOf(rs[i]))
  }

  lemma QueriesRoundTrip(data: seq<byte>, ats: seq<nat>, qs: seq<Query>)
    requires QueriesAt(data, ats, qs)
    ensures Section(Questions(data), ats[0], |qs|) == Parsed(QuestionsOf(qs), ats[|qs|])
  {
    hide QueryAt, QuestionAt, Section;
    forall i | 0 <= i < |qs|
      ensures Questions(data)(ats[i]) == Parsed(QuestionsOf(qs)[i], ats[i + 1])
    {
      QuestionRoundTrip(data, ats[i], qs[i], ats[i + 1]);
    }
    SectionRoundTrip(Questions(data), ats, QuestionsOf(qs));
  }

  lemma ResourcesRoundTrip(data: seq<byte>, ats: seq<nat>, rs: seq<Resource>)
    requires ResourcesAt(data, ats, rs)
    ensures forall i :: 0 <= i < |rs| ==> Sized(rs[i])
    ensures Section(Answers(data), ats[0], |rs|) == Parsed(RecordsOf(rs), ats[|rs|])
  {
    hide ResourceAt, RecordAt, Section, Sized;
    forall i | 0 <= i < |rs|
      ensures Sized(rs[i]) && Answers(data)(ats[i]) == Parsed(RecordOf(rs[i]), ats[i + 1])
    {
      ResourceRoundTrip(data, ats[i], rs[i], ats[i + 1]);
    }
    SectionRoundTrip(Answers(data), ats, RecordsOf(rs));
  }

  /** Decoding a message recovers its header, its first four questions and its first twelve answers
      with the text of their data, whatever the names' compression and whatever follows. */
  lemma MessageRoundTrip(data: seq<byte>, h: Header, qs: seq<Query>, qats: seq<nat>,
                         rs: seq<Resource>, rats: seq<nat>, answers: u16)
    requires |qs| < 0x1_0000 && |rs| == Min(answers, 12)
    requires EncodeHeader(h, |qs|, answers) <= data
    requires QueriesAt(data, qats, qs) && qats[0] == 12
    requires ResourcesAt(data, rats, rs) && rats[0] == qats[|qs|]
    ensures forall i :: 0 <= i < |rs| ==> Sized(rs[i])
    ensures Message(data) ==
      Parsed(Info(h.id, h.flags, h.flags >= 0x8000, |qs|, answers, h.authorityCount, h.additionalCount,
                  QuestionsOf(qs)[..Min(|qs|, 4)], RecordsOf(rs)),
             rats[|rs|])
  {
    hide QueryAt, ResourceAt, Section, EncodeHeader, U16, Sized, RecordOf;
    HeaderRoundTrip(h, |qs|, answers, data);
    QueriesRoundTrip(data, qats, qs);
    ResourcesRoundTrip(data, rats, rs);
  }

  // ----- An encoder, without compression -----

  function EncodeName(labels: seq<Label>): seq<byte>
    requires Legal(labels)
  {
    Wire(labels) + [0]
  }

  lemma {:induction false} PlainNameEnds(data: seq<byte>, pos: nat, labels: seq<Label>)
    requires LegalLabels(labels) && WrittenAt(data, pos, Wire(labels) + [0])
    ensures NameEnd(data, pos) == pos + |Wire(labels)| + 1
    decreases |labels|
  {
    WrittenInParts(data, pos, Wire(labels), [0]);
    if labels == [] {
      assert data[pos + 0] == [0][0];
    } else {
      FirstWritten(data, pos, labels);
      var rest := Wire(labels[1..]);
      assert WrittenAt(data, pos + 1 + |labels[0]|, rest + [0]) by {
        assert data[pos + |Wire(labels)| + 0] == [0][0];
      }
      PlainNameEnds(data, pos + 1 + |labels[0]|, labels[1..]);
    }
  }

  lemma PlainNameAt(data: seq<byte>, pos: nat, labels: seq<Label>, cap: nat)
    requires Legal(labels) && cap >= 256 && WrittenAt(data, pos, EncodeName(labels))
    ensures NameAt(data, pos, labels, cap) && NameEnd(data, pos) == pos + |EncodeName(labels)|
  {
    hide Spells, NameEnd;
    SpellsPlain(data, pos, labels);
    PlainNameEnds(data, pos, labels);
    if labels != [] {
      DottedLength(labels);
    }
  }

  predicate Encodable(r: Resource) {
    && Legal(r.labels)
    && EncodableData(r.data) && r.rdlength == |EncodeRdata(r.data)|
  }

  predicate EncodableData(d: Rdata) {
    match d
    case Address4(addr) => |addr| == 4
    case Address6(addr) => |addr| == 16
    case Host(kind, labels) => IsHostKind(kind) && Legal(labels)
    case Exchange(_, labels) => Legal(labels)
    case Strings(strings) => forall s :: s in strings ==> |s| < 0x100
    case Unreadable(_) => false
  }

  function EncodeRdata(d: Rdata): seq<byte>
    requires EncodableData(d)
  {
    match d
    case Address4(addr) => addr
    case Address6(addr) => addr
    case Host(_, labels) => EncodeName(labels)
    case Exchange(preference, labels) => Put16(preference) + EncodeName(labels)
    case Strings(strings) => EncodeStrings(strings)
  }

  function EncodeQuery(q: Query): seq<byte>
    requires Legal(q.labels)
  {
    EncodeName(q.labels) + (Put16(q.qtype) + Put16(q.qclass))
  }

  function EncodeResource(r: Resource): seq<byte>
    requires Encodable(r)
  {
    EncodeName(r.labels) + (EncodeFixed(r) + EncodeRdata(r.data))
  }

  lemma EncodedQueryAt(data: seq<byte>, pos: nat, q: Query)
    requires Legal(q.labels) && WrittenAt(data, pos, EncodeQuery(q))
    ensures QueryAt(data, pos, q, pos + |EncodeQuery(q)|)
  {
    hide NameAt, NameEnd, EncodeName, Legal;
    WrittenInParts(data, pos, EncodeName(q.labels), Put16(q.qtype) + Put16(q.qclass));
    PlainNameAt(data, pos, q.labels, 256);
  }

  lemma EncodedRdataAt(data: seq<byte>, at: nat, d: Rdata)
    requires EncodableData(d) && WrittenAt(data, at, EncodeRdata(d))
    ensures RdataAt(data, at, |EncodeRdata(d)|, d)
  {
    hide NameAt, EncodeName, Legal, EncodeStrings;
    match d
    case Host(_, labels) => PlainNameAt(data, at, labels, 263);
    case Exchange(preference, labels) =>
      WrittenInParts(data, at, Put16(preference), EncodeName(labels));
      PlainNameAt(data, at + 2, labels, 256);
    case _ =>
  }

  lemma EncodedResourceAt(data: seq<byte>, pos: nat, r: Resource)
    requires Encodable(r) && WrittenAt(data, pos, EncodeResource(r))
    ensures ResourceAt(data, pos, r, pos + |EncodeResource(r)|)
  {
    hide NameAt, NameEnd, EncodeName, Legal, RdataAt, EncodeRdata, EncodableData;
    WrittenInParts(data, pos, EncodeName(r.labels), EncodeFixed(r) + EncodeRdata(r.data));
    PlainNameAt(data, pos, r.labels, 256);
    var at := NameEnd(data, pos);
    WrittenInParts(data, at, EncodeFixed(r), EncodeRdata(r.data));
    EncodedRdataAt(data, at + 10, r.data);
  }

  function Flat(parts: seq<seq<byte>>): seq<byte> {
    if parts == [] then [] else parts[0] + Flat(parts[1..])
  }

  /** The parts of a concatenation lie one behind the other, from `ats[0]` on. */
  lemma {:induction false} PartsAt(data: seq<byte>, pos: nat, parts: seq<seq<byte>>) returns (ats: seq<nat>)
    requires WrittenAt(data, pos, Flat(parts))
    ensures |ats| == |parts| + 1 && ats[0] == pos && ats[|parts|] == pos + |Flat(parts)|
    ensures forall i :: 0 <= i < |parts| ==> WrittenAt(data, ats[i], parts[i]) && ats[i + 1] == ats[i] + |parts[i]|
    decreases |parts|
  {
    hide WrittenAt;
    if parts == [] {
      ats := [pos];
    } else {
      WrittenInParts(data, pos, parts[0], Flat(parts[1..]));
      var rest := PartsAt(data, pos + |parts[0]|, parts[1..]);
      ats := [pos] + rest;
      forall i | 0 <= i < |parts|
        ensures WrittenAt(data, ats[i], parts[i]) && ats[i + 1] == ats[i] + |parts[i]|
      {
        assert i > 0 ==> parts[i] == parts[1..][i - 1] && ats[i] == rest[i - 1];
      }
    }
  }

  function EncodeQueries(qs: seq<Query>): seq<byte>
    requires forall i :: 0 <= i < |qs| ==> Legal(qs[i].labels)
  {
    Flat(seq(|qs|, i requires 0 <= i < |qs| => EncodeQuery(qs[i])))
  }

  function EncodeResources(rs: seq<Resource>): seq<byte>
    requires forall i :: 0 <= i < |rs| ==> Encodable(rs[i])
  {
    Flat(seq(|rs|, i requires 0 <= i < |rs| => EncodeResource(rs[i])))
  }

  lemma EncodedQueriesAt(data: seq<byte>, pos: nat, qs: seq<Query>) returns (ats: seq<nat>)
    requires forall i :: 0 <= i < |qs| ==> Legal(qs[i].labels)
    requires WrittenAt(data, pos, EncodeQueries(qs))
    ensures QueriesAt(data, ats, qs) && ats[0] == pos && ats[|qs|] == pos + |EncodeQueries(qs)|
  {
    hide Legal, QueryAt, EncodeQuery, WrittenAt, Flat;
    var parts := seq(|qs|, i requires 0 <= i < |qs| => EncodeQuery(qs[i]));
    ats := PartsAt(data, pos, parts);
    forall i | 0 <= i < |qs|
      ensures QueryAt(data, ats[i], qs[i], ats[i + 1])
    {
      assert WrittenAt(data, ats[i], parts[i]);
      EncodedQueryAt(data, ats[i], qs[i]);
    }
  }

  lemma EncodedResourcesAt(data: seq<byte>, pos: nat, rs: seq<Resource>) returns (ats: seq<nat>)
    requires forall i :: 0 <= i < |rs| ==> Encodable(rs[i])
    requires WrittenAt(data, pos, EncodeResources(rs))
    ensures ResourcesAt(data, ats, rs) && ats[0] == pos
  {
    hide Encodable, ResourceAt, EncodeResource, WrittenAt, Flat;
    var parts := seq(|rs|, i requires 0 <= i < |rs| => EncodeResource(rs[i]));
    ats := PartsAt(data, pos, parts);
    forall i | 0 <= i < |rs|
      ensures ResourceAt(data, ats[i], rs[i], ats[i + 1])
    {
      assert WrittenAt(data, ats[i], parts[i]);
      EncodedResourceAt(data, ats[i], rs[i]);
    }
  }

  function EncodeMessage(h: Header, qs: seq<Query>, rs: seq<Resource>): seq<byte>
    requires |qs| < 0x1_0000 && |rs| < 0x1_0000
    requires forall i :: 0 <= i < |qs| ==> Legal(qs[i].labels)
    requires forall i :: 0 <= i < |rs| ==> Encodable(rs[i])
  {
    EncodeHeader(h, |qs|, |rs|) + (EncodeQueries(qs) + EncodeResources(rs))
  }

  /** In particular, decoding inverts encoding, for up to 65535 questions and answers: the first four
      questions and the first twelve answers are kept. */
  lemma EncodedMessageRoundTrip(data: seq<byte>, h: Header, qs: seq<Query>, rs: seq<Resource>)
    requires |qs| < 0x1_0000 && |rs| < 0x1_0000
    requires forall i :: 0 <= i < |qs| ==> Legal(qs[i].labels)
    requires forall i :: 0 <= i < |rs| ==> Encodable(rs[i])
    requires EncodeMessage(h, qs, rs) <= data
    ensures var kept := rs[..Min(|rs|, 12)];
      && (forall i :: 0 <= i < |kept| ==> Sized(kept[i]))
      && var m := Message(data);
         && m.Parsed?
         && m.value == Info(h.id, h.flags, h.flags >= 0x8000, |qs|, |rs|, h.authorityCount, h.additionalCount,
                            QuestionsOf(qs)[..Min(|qs|, 4)], RecordsOf(kept))
  {
    hide EncodeQueries, EncodeResources, QueryAt, ResourceAt, Sized, Message, Encodable, Legal, QuestionsOf, RecordsOf;
    var header, queries, resources := EncodeHeader(h, |qs|, |rs|), EncodeQueries(qs), EncodeResources(rs);
    WrittenInParts(data, 0, header, queries + resources);
    WrittenInParts(data, 12, queries, resources);
    var qats := EncodedQueriesAt(data, 12, qs);
    var rats := EncodedResourcesAt(data, 12 + |queries|, rs);
    var n := Min(|rs|, 12);
    assert ResourcesAt(data, rats[..n + 1], rs[..n]);
    MessageRoundTrip(data, h, qs, qats, rs[..n], rats[..n + 1], |rs|);
  }
}
