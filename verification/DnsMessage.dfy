/** What a DNS message decodes to: questions, answers and the text of their data
    (src/protocols/dns.c). */
module DnsMessage {
  import opened Bytes
  import opened Numerals
  import opened AddressText
  import opened DnsName

  const HEADER_LEN := 12
  const MAX_QUESTIONS := 4
  const MAX_ANSWERS := 12
  const NAME_BUFFER := MAX_NAME + 1
  const RDATA_BUFFER := MAX_NAME + 8

  const TYPE_A := 1
  const TYPE_NS := 2
  const TYPE_CNAME := 5
  const TYPE_PTR := 12
  const TYPE_MX := 15
  const TYPE_TXT := 16
  const TYPE_AAAA := 28

  datatype Question = Question(name: string, qtype: u16, qclass: u16)
  datatype Record =
    Record(name: string, rtype: u16, rclass: u16, ttl: u32, rdlength: u16, rdataText: string)

  datatype Info = Info(id: u16, flags: u16, isResponse: bool,
                       questionCount: u16, answerCount: u16, authorityCount: u16, additionalCount: u16,
                       questions: seq<Question>, answers: seq<Record>)

  function QuestionAt(data: seq<byte>, offset: nat): Parsed<Question> {
    var w := Decode(data, offset, NAME_BUFFER);
    var end := NameEnd(data, offset);
    if w.status != Ok then Failed(w.status)
    else if !InBounds(|data|, end, 4) then Failed(Truncated)
    else Parsed(Question(NameText(w.labels), U16(data, end), U16(data, end + 2)), end + 4)
  }

  // ----- Record data as text -----

  /** The complete leading character-strings of TXT data (section 3.3.14 of RFC 1035), joined. */
  function TxtBytes(rdata: seq<byte>): seq<byte> {
    if rdata == [] || 1 + rdata[0] > |rdata| then []
    else rdata[1..1 + rdata[0]] + TxtBytes(rdata[1 + rdata[0]..])
  }

  function Fallback(rdlength: nat): string {
    "<" + Digits(rdlength, 10) + " bytes>"
  }

  function NameData(data: seq<byte>, offset: nat): Option<string> {
    var w := Decode(data, offset, RDATA_BUFFER);
    if w.status == Ok then Some(NameText(w.labels)) else None
  }

  function MxData(data: seq<byte>, offset: nat): Option<string> {
    if !InBounds(|data|, offset, 2) then None
    else
      var w := Decode(data, offset + 2, NAME_BUFFER);
      if w.status != Ok then None
      else Some(Digits(U16(data, offset), 10) + " " + CString(NameText(w.labels)))
  }

  /** The text of record data, or None where the fixed fallback is printed instead. */
  function RdataView(data: seq<byte>, offset: nat, rdlength: nat, rtype: nat): Option<string>
    requires InBounds(|data|, offset, rdlength)
  {
    if rtype == TYPE_A then
      if rdlength == 4 then Some(IPv4Text(data[offset..offset + 4])) else None
    else if rtype == TYPE_AAAA then
      if rdlength == 16 then Some(IPv6Text(data[offset..offset + 16])) else None
    else if rtype == TYPE_CNAME || rtype == TYPE_NS || rtype == TYPE_PTR then NameData(data, offset)
    else if rtype == TYPE_MX then MxData(data, offset)
    else if rtype == TYPE_TXT then
      Some(Clip(Chars(TxtBytes(data[offset..offset + rdlength])), RDATA_BUFFER))
    else None
  }

  function RdataText(data: seq<byte>, offset: nat, rdlength: nat, rtype: nat): string
    requires InBounds(|data|, offset, rdlength)
  {
    match RdataView(data, offset, rdlength, rtype)
    case Some(text) => text
    case None => Fallback(rdlength)
  }

  /** The fixed fields and the data that follow a record's name. */
  function RecordBody(data: seq<byte>, name: string, at: nat): Parsed<Record> {
    if !InBounds(|data|, at, 10) then Failed(Truncated)
    else
      var rdlength := U16(data, at + 8);
      if !InBounds(|data|, at + 10, rdlength) then Failed(Truncated)
      else
        Parsed(Record(name, U16(data, at), U16(data, at + 2), U32(data, at + 4), rdlength,
                      RdataText(data, at + 10, rdlength, U16(data, at))),
               at + 10 + rdlength)
  }

  function RecordAt(data: seq<byte>, offset: nat): Parsed<Record> {
    var w := Decode(data, offset, NAME_BUFFER);
    if w.status != Ok then Failed(w.status)
    else RecordBody(data, NameText(w.labels), NameEnd(data, offset))
  }

  // ----- Sections and the whole message -----

  function Questions(data: seq<byte>): nat -> Parsed<Question> {
    (offset: nat) => QuestionAt(data, offset)
  }

  function Answers(data: seq<byte>): nat -> Parsed<Record> {
    (offset: nat) => RecordAt(data, offset)
  }

  /** A section: `n` items, each read where the one before it ended. */
  function Section<T>(read: nat -> Parsed<T>, offset: nat, n: nat): Parsed<seq<T>>
    decreases n
  {
    if n == 0 then Parsed([], offset)
    else
      match read(offset)
      case Failed(status) => Failed(status)
      case Parsed(item, next) => Behind([item], Section(read, next, n - 1))
  }

  function Behind<T>(front: seq<T>, rest: Parsed<seq<T>>): Parsed<seq<T>> {
    match rest
    case Parsed(items, next) => Parsed(front + items, next)
    case Failed(status) => Failed(status)
  }

  function QuestionSection(data: seq<byte>): Parsed<seq<Question>>
    requires InBounds(|data|, 0, HEADER_LEN)
  {
    Section(Questions(data), HEADER_LEN, U16(data, 4))
  }

  function AnswerSection(data: seq<byte>, questions: Parsed<seq<Question>>): Parsed<seq<Record>>
    requires InBounds(|data|, 0, HEADER_LEN)
  {
    if questions.Failed? then Failed(questions.status)
    else Section(Answers(data), questions.next, Min(U16(data, 6), MAX_ANSWERS))
  }

  /** A decoded message, with the offset behind its last decoded record. */
  function Message(data: seq<byte>): Parsed<Info> {
    if !InBounds(|data|, 0, HEADER_LEN) then Failed(Truncated)
    else
      var questions := QuestionSection(data);
      Assemble(data, questions, AnswerSection(data, questions))
  }

  function Assemble(data: seq<byte>, questions: Parsed<seq<Question>>, answers: Parsed<seq<Record>>): Parsed<Info>
    requires InBounds(|data|, 0, HEADER_LEN)
  {
    if questions.Failed? then Failed(questions.status)
    else if answers.Failed? then Failed(answers.status)
    else
      var kept := questions.value[..Min(|questions.value|, MAX_QUESTIONS)];
      Parsed(InfoWith(data, kept, answers.value), answers.next)
  }

  function InfoWith(data: seq<byte>, questions: seq<Question>, answers: seq<Record>): Info
    requires InBounds(|data|, 0, HEADER_LEN)
  {
    Info(U16(data, 0), U16(data, 2), U16(data, 2) >= 0x8000,
         U16(data, 4), U16(data, 6), U16(data, 8), U16(data, 10), questions, answers)
  }
}
