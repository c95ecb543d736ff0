/** The loops and buffers of src/protocols/dns.c against the message they must decode. */
module DnsParser {
  import opened Bytes
  import opened Numerals
  import opened AddressText
  import opened AddressPrinter
  import opened DnsName
  import opened DnsMessage

  // ----- Record data -----

  /** The text of the character-strings from `pos` on. */
  function TxtFrom(rdata: seq<byte>, pos: nat): string
    requires pos <= |rdata|
  {
    Chars(TxtBytes(rdata[pos..]))
  }

  lemma TxtStep(rdata: seq<byte>, pos: nat, done: string)
    requires pos < |rdata|
    ensures var next := pos + 1 + rdata[pos];
      if next > |rdata| then TxtFrom(rdata, pos) == ""
      else done + TxtFrom(rdata, pos) == done + Chars(rdata[pos + 1..next]) + TxtFrom(rdata, next)
  {
    var next := pos + 1 + rdata[pos];
    if next <= |rdata| {
      assert rdata[pos..][1..1 + rdata[pos]] == rdata[pos + 1..next];
      assert rdata[pos..][1 + rdata[pos]..] == rdata[next..];
      assert TxtFrom(rdata, pos) == Chars(rdata[pos + 1..next]) + TxtFrom(rdata, next);
    }
  }

  lemma TxtStart(rdata: seq<byte>, cap: nat)
    requires cap > 0
    ensures TxtFrom(rdata, 0) == Chars(TxtBytes(rdata)) && Clip("", cap) == ""
  {
    assert rdata[0..] == rdata;
  }

  /** Nothing more to copy, or no more room. */
  lemma TxtDone(rdata: seq<byte>, pos: nat, done: string, cap: nat)
    requires cap > 0 && pos <= |rdata|
    requires pos == |rdata| || TxtFrom(rdata, pos) == "" || |Clip(done, cap)| + 1 >= cap
    ensures Clip(done + TxtFrom(rdata, pos), cap) == Clip(done, cap)
  {
  }

  lemma NotClipped(done: string, cap: nat)
    requires cap > 0 && |Clip(done, cap)| + 1 < cap
    ensures Clip(done, cap) == done
  {
  }

  /** Copies as much of one character-string as the buffer still holds. */
  method CopyString(out: array<char>, n: nat, s: seq<byte>) returns (m: nat)
    requires n < out.Length
    modifies out
    ensures m < out.Length
    ensures out[..m] == Clip(old(out[..n]) + Chars(s), out.Length)
  {
    var copy := if n + |s| >= out.Length then out.Length - n - 1 else |s|;
    m := Put(out, n, Chars(s[..copy]));
    assert Chars(s[..copy]) == Chars(s)[..copy];
  }

  /** `ns_dns_format_txt`. The source passes a buffer of at least one byte. */
  method FormatTxt(rdata: seq<byte>, out: array<char>) returns (n: nat)
    requires out.Length > 0
    modifies out
    ensures n < out.Length && out[n] == '\0'
    ensures out[..n] == Clip(Chars(TxtBytes(rdata)), out.Length)
  {
    hide TxtFrom, Clip, Chars;
    var pos: nat := 0;
    n := 0;
    out[0] := '\0';
    ghost var done := "";
    ghost var all := TxtFrom(rdata, 0);
    TxtStart(rdata, out.Length);
    while pos < |rdata| && n + 1 < out.Length
      invariant pos <= |rdata| && n < out.Length
      invariant all == done + TxtFrom(rdata, pos)
      invariant out[..n] == Clip(done, out.Length)
    {
      TxtStep(rdata, pos, done);
      NotClipped(done, out.Length);
      var next := pos + 1 + rdata[pos];
      if next > |rdata| {
        break;
      }
      n := CopyString(out, n, rdata[pos + 1..next]);
      done := done + Chars(rdata[pos + 1..next]);
      pos := next;
    }
    TxtDone(rdata, pos, done, out.Length);
    out[n] := '\0';
  }

  /** `ns_dns_format_mx`: the preference and, as a C string, the exchange's name. */
  method FormatMx(data: seq<byte>, offset: nat, out: array<char>) returns (ok: bool, n: nat)
    requires out.Length == RDATA_BUFFER
    modifies out
    ensures ok == MxData(data, offset).Some?
    ensures ok ==> n < out.Length && out[..n] == MxData(data, offset).value && out[n] == '\0'
  {
    ok, n := false, 0;
    if !InBounds(|data|, offset, 2) {
      return;
    }
    var name := new char[NAME_BUFFER];
    var status, len, end, path := DecodeName(data, offset + 2, name);
    if status != Ok {
      return;
    }
    assert Power(10, 5) == 100_000;
    DigitsLength(U16(data, offset), 10, 5);
    n := Print(out, Digits(U16(data, offset), 10) + " " + CString(name[..len]));
    ok := true;
  }

  /** `ns_dns_format_rdata`: the text for the types it knows, the byte count otherwise. */
  method FormatRdata(data: seq<byte>, offset: nat, rdlength: nat, rtype: nat, out: array<char>)
      returns (n: nat)
    requires InBounds(|data|, offset, rdlength) && rdlength < 0x1_0000
    requires out.Length == RDATA_BUFFER
    modifies out
    ensures n < out.Length && out[..n] == RdataText(data, offset, rdlength, rtype) && out[n] == '\0'
  {
    var ok := false;
    n := 0;
    if rtype == TYPE_A {
      if rdlength == 4 {
        IPv4Length(data[offset..offset + 4]);
        n := Print(out, IPv4Text(data[offset..offset + 4]));
        ok := true;
      }
    } else if rtype == TYPE_AAAA {
      if rdlength == 16 {
        n := FormatIPv6(data[offset..offset + 16], out);
        ok := true;
      }
    } else if rtype == TYPE_CNAME || rtype == TYPE_NS || rtype == TYPE_PTR {
      var status, len, end, path := DecodeName(data, offset, out);
      ok, n := status == Ok, len;
    } else if rtype == TYPE_MX {
      ok, n := FormatMx(data, offset, out);
    } else if rtype == TYPE_TXT {
      n := FormatTxt(data[offset..offset + rdlength], out);
      ok := true;
    }
    assert ok == RdataView(data, offset, rdlength, rtype).Some?;
    if !ok {
      assert Power(10, 5) == 100_000;
      DigitsLength(rdlength, 10, 5);
      n := Print(out, Fallback(rdlength));
    }
  }

  // ----- Questions and records -----

  /** `ns_dns_parse_question`: the same verdict and offset with or without an output slot. */
  method ParseQuestion(data: seq<byte>, offset: nat, slot: bool)
      returns (status: Status, next: nat, out: Option<Question>)
    ensures match QuestionAt(data, offset)
      case Failed(s) => status == s && s != Ok && next == offset && out == None
      case Parsed(q, n) => status == Ok && next == n && out == if slot then Some(q) else None
  {
    next, out := offset, None;
    var name := new char[NAME_BUFFER];
    var n, end;
    ghost var path;
    status, n, end, path := DecodeName(data, offset, name);
    if status != Ok {
      return;
    }
    if !InBounds(|data|, end, 4) {
      status := Truncated;
      return;
    }
    if slot {
      out := Some(Question(name[..n], U16(data, end), U16(data, end + 2)));
    }
    next := end + 4;
  }

  /** `ns_dns_parse_record`, as called: with an output slot. */
  method ParseRecord(data: seq<byte>, offset: nat) returns (status: Status, next: nat, out: Option<Record>)
    ensures match RecordAt(data, offset)
      case Failed(s) => status == s && s != Ok && next == offset && out == None
      case Parsed(r, n) => status == Ok && next == n && out == Some(r)
  {
    next, out := offset, None;
    var name := new char[NAME_BUFFER];
    var n, end;
    ghost var path;
    status, n, end, path := DecodeName(data, offset, name);
    if status != Ok {
      return;
    }
    if !InBounds(|data|, end, 10) {
      status := Truncated;
      return;
    }
    var rdlength := U16(data, end + 8);
    if !InBounds(|data|, end + 10, rdlength) {
      status := Truncated;
      return;
    }
    var text := new char[RDATA_BUFFER];
    var len := FormatRdata(data, end + 10, rdlength, U16(data, end), text);
    out := Some(Record(name[..n], U16(data, end), U16(data, end + 2), U32(data, end + 4), rdlength,
                       text[..len]));
    next := end + 10 + rdlength;
  }

  lemma BehindNothing<T>(rest: Parsed<seq<T>>)
    ensures Behind([], rest) == rest
  {
    assert rest.Parsed? ==> [] + rest.value == rest.value;
  }

  lemma SectionStep<T>(read: nat -> Parsed<T>, offset: nat, n: nat, front: seq<T>)
    requires n > 0 && read(offset).Parsed?
    ensures Behind(front, Section(read, offset, n)) ==
            Behind(front + [read(offset).value], Section(read, read(offset).next, n - 1))
  {
    var rest := Section(read, read(offset).next, n - 1);
    if rest.Parsed? {
      assert front + ([read(offset).value] + rest.value) == front + [read(offset).value] + rest.value;
    }
  }

  lemma SectionEnds<T>(read: nat -> Parsed<T>, offset: nat, n: nat, front: seq<T>)
    ensures Behind(front, Section(read, offset, 0)) == Parsed(front, offset)
    ensures n > 0 && read(offset).Failed? ==>
            Behind(front, Section(read, offset, n)) == Failed(read(offset).status)
  {
    assert front + [] == front;
  }

  /** The question loop: all are parsed, the first four kept. */
  method ParseQuestions(data: seq<byte>, count: nat)
      returns (status: Status, kept: seq<Question>, offset: nat)
    ensures match Section(Questions(data), HEADER_LEN, count)
      case Failed(s) => status == s && s != Ok
      case Parsed(all, next) =>
        status == Ok && offset == next && kept == all[..Min(|all|, MAX_QUESTIONS)]
  {
    hide QuestionAt, Section, Behind;
    offset, kept, status := HEADER_LEN, [], Ok;
    ghost var all: seq<Question> := [];
    ghost var read := Questions(data);
    BehindNothing(Section(read, HEADER_LEN, count));
    for i := 0 to count
      invariant |all| == i && kept == all[..Min(i, MAX_QUESTIONS)]
      invariant status == Ok
      invariant Section(read, HEADER_LEN, count) == Behind(all, Section(read, offset, count - i))
    {
      ghost var here := read(offset);
      SectionEnds(read, offset, count - i, all);
      var next, q;
      status, next, q := ParseQuestion(data, offset, i < MAX_QUESTIONS);
      if status != Ok {
        return;
      }
      SectionStep(read, offset, count - i, all);
      if q.Some? {
        kept := kept + [q.value];
      }
      all, offset := all + [here.value], next;
    }
    SectionEnds(read, offset, 0, all);
  }

  /** The answer loop: at most twelve, all kept. */
  method ParseAnswers(data: seq<byte>, start: nat, count: nat)
      returns (status: Status, answers: seq<Record>, offset: nat)
    ensures match Section(Answers(data), start, Min(count, MAX_ANSWERS))
      case Failed(s) => status == s && s != Ok
      case Parsed(all, next) => status == Ok && offset == next && answers == all
  {
    hide RecordAt, Section, Behind;
    offset, answers, status := start, [], Ok;
    ghost var n := Min(count, MAX_ANSWERS);
    ghost var read := Answers(data);
    BehindNothing(Section(read, start, n));
    var i := 0;
    while i < count && i < MAX_ANSWERS
      invariant i <= n && status == Ok
      invariant Section(read, start, n) == Behind(answers, Section(read, offset, n - i))
    {
      SectionEnds(read, offset, n - i, answers);
      var next, r;
      status, next, r := ParseRecord(data, offset);
      if status != Ok {
        return;
      }
      SectionStep(read, offset, n - i, answers);
      answers, offset := answers + [r.value], next;
      i := i + 1;
    }
    SectionEnds(read, offset, 0, answers);
  }

  /** `ns_parse_dns`. */
  method ParseDns(data: seq<byte>) returns (status: Status, out: Option<Info>)
    ensures match Message(data)
      case Failed(s) => status == s && s != Ok && out == None
      case Parsed(info, _) => status == Ok && out == Some(info)
  {
    out := None;
    if !InBounds(|data|, 0, HEADER_LEN) {
      return Truncated, None;
    }
    var questions, answers, middle, end;
    status, questions, middle := ParseQuestions(data, U16(data, 4));
    if status != Ok {
      return;
    }
    status, answers, end := ParseAnswers(data, middle, U16(data, 6));
    if status == Ok {
      out := Some(InfoWith(data, questions, answers));
    }
  }
}
