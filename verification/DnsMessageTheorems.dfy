/** What `ns_parse_dns` (src/protocols/dns.c) guarantees for every message. */
module DnsMessageTheorems {
  import opened Bytes
  import opened DnsName
  import opened DnsNameTheorems
  import opened DnsMessage

  // ----- Progress and size -----

  lemma QuestionProgress(data: seq<byte>, offset: nat)
    requires QuestionAt(data, offset).Parsed?
    ensures offset + 5 <= QuestionAt(data, offset).next <= |data|
  {
    AcceptedIsClosed(data, offset, 0, NAME_BUFFER, 0);
  }

  lemma RecordProgress(data: seq<byte>, offset: nat)
    requires RecordAt(data, offset).Parsed?
    ensures var r := RecordAt(data, offset);
      offset + 11 + r.value.rdlength <= r.next <= |data|
  {
    AcceptedIsClosed(data, offset, 0, NAME_BUFFER, 0);
  }

  /** Every item of an accepted section moves the offset by at least `step`, inside `limit`. */
  lemma {:induction false} SectionProgress<T>(read: nat -> Parsed<T>, offset: nat, n: nat, step: nat, limit: nat)
    requires offset <= limit && Section(read, offset, n).Parsed?
    requires forall o: nat :: read(o).Parsed? ==> o + step <= read(o).next <= limit
    ensures var r := Section(read, offset, n);
      |r.value| == n && offset + step * n <= r.next <= limit
    decreases n
  {
    if n > 0 {
      SectionProgress(read, read(offset).next, n - 1, step, limit);
      assert step * n == step + step * (n - 1);
    }
  }

  /** An accepted message is as long as its claimed counts need, and carries exactly the first
      four questions and the first twelve answers. */
  lemma MessageSize(data: seq<byte>)
    requires Message(data).Parsed?
    ensures var m := Message(data);
      && 12 + 5 * m.value.questionCount + 11 * Min(m.value.answerCount, 12) <= m.next <= |data|
      && |m.value.questions| == Min(m.value.questionCount, 4)
      && |m.value.answers| == Min(m.value.answerCount, 12)
  {
    forall o: nat
      ensures Questions(data)(o).Parsed? ==> o + 5 <= Questions(data)(o).next <= |data|
      ensures Answers(data)(o).Parsed? ==> o + 11 <= Answers(data)(o).next <= |data|
    {
      if Questions(data)(o).Parsed? { QuestionProgress(data, o); }
      if Answers(data)(o).Parsed? { RecordProgress(data, o); }
    }
    var qd, an := U16(data, 4), Min(U16(data, 6), MAX_ANSWERS);
    SectionProgress(Questions(data), HEADER_LEN, qd, 5, |data|);
    SectionProgress(Answers(data), Section(Questions(data), HEADER_LEN, qd).next, an, 11, |data|);
  }

  // ----- More captured bytes -----

  /** A record as a shorter capture of the same message shows it. */
  predicate RecordRefines(part: Record, whole: Record) {
    && whole.(rdataText := part.rdataText) == part
    && (part.rdataText == whole.rdataText || part.rdataText == Fallback(part.rdlength))
  }

  predicate RecordsRefine(part: seq<Record>, whole: seq<Record>) {
    |part| == |whole| && forall i :: 0 <= i < |part| ==> RecordRefines(part[i], whole[i])
  }

  predicate InfoRefines(part: Info, whole: Info) {
    whole.(answers := part.answers) == part && RecordsRefine(part.answers, whole.answers)
  }

  lemma NameStable(data: seq<byte>, longer: seq<byte>, offset: nat, cap: nat)
    requires data <= longer && Decode(data, offset, cap).status != Truncated
    ensures Decode(longer, offset, cap) == Decode(data, offset, cap)
    ensures Decode(data, offset, cap).status == Ok ==> NameEnd(longer, offset) == NameEnd(data, offset)
  {
    WalkStable(data, longer, offset, 0, cap, 0);
    if Decode(data, offset, cap).status == Ok {
      AcceptedIsClosed(data, offset, 0, cap, 0);
      NameEndIsLocal(data, longer, offset);
    }
  }

  lemma QuestionStable(data: seq<byte>, longer: seq<byte>, offset: nat)
    requires data <= longer && QuestionAt(data, offset) != Failed(Truncated)
    ensures QuestionAt(longer, offset) == QuestionAt(data, offset)
  {
    NameStable(data, longer, offset, NAME_BUFFER);
  }

  lemma NameDataStable(data: seq<byte>, longer: seq<byte>, offset: nat)
    requires data <= longer
    ensures NameData(data, offset).Some? ==> NameData(longer, offset) == NameData(data, offset)
    ensures MxData(data, offset).Some? ==> MxData(longer, offset) == MxData(data, offset)
  {
    hide Decode, CString, NameText;
    if NameData(data, offset).Some? {
      NameStable(data, longer, offset, RDATA_BUFFER);
    }
    if MxData(data, offset).Some? {
      NameStable(data, longer, offset + 2, NAME_BUFFER);
    }
  }

  lemma RdataStable(data: seq<byte>, longer: seq<byte>, offset: nat, rdlength: nat, rtype: nat)
    requires data <= longer && InBounds(|data|, offset, rdlength)
    ensures RdataText(data, offset, rdlength, rtype) == RdataText(longer, offset, rdlength, rtype) ||
            RdataText(data, offset, rdlength, rtype) == Fallback(rdlength)
  {
    hide NameData, MxData, TxtBytes, Chars, Clip, Fallback;
    assert data[offset..offset + rdlength] == longer[offset..offset + rdlength];
    NameDataStable(data, longer, offset);
  }

  /** Reading with fewer and with more bytes: the verdict, if not Truncated, and the end agree. */
  ghost predicate Settled<T>(part: Parsed<T>, whole: Parsed<T>, same: (T, T) -> bool) {
    part != Failed(Truncated) ==>
      if part.Failed? then whole == part
      else whole.Parsed? && whole.next == part.next && same(part.value, whole.value)
  }

  function SameQuestion(): (Question, Question) -> bool { (a, b) => a == b }

  function SameRecord(): (Record, Record) -> bool { (a, b) => RecordRefines(a, b) }

  lemma BodyStable(data: seq<byte>, longer: seq<byte>, name: string, at: nat)
    requires data <= longer
    ensures Settled(RecordBody(data, name, at), RecordBody(longer, name, at), SameRecord())
  {
    if RecordBody(data, name, at).Parsed? {
      RdataStable(data, longer, at + 10, U16(data, at + 8), U16(data, at));
    }
  }

  lemma RecordStable(data: seq<byte>, longer: seq<byte>, offset: nat)
    requires data <= longer
    ensures Settled(RecordAt(data, offset), RecordAt(longer, offset), SameRecord())
  {
    var w := Decode(data, offset, NAME_BUFFER);
    if w.status != Truncated {
      NameStable(data, longer, offset, NAME_BUFFER);
      BodyStable(data, longer, NameText(w.labels), NameEnd(data, offset));
    }
  }

  lemma {:induction false} SectionStable<T(!new)>(part: nat -> Parsed<T>, whole: nat -> Parsed<T>,
                                            same: (T, T) -> bool, offset: nat, n: nat)
    requires forall o: nat :: Settled(part(o), whole(o), same)
    requires Section(part, offset, n) != Failed(Truncated)
    ensures var p, w := Section(part, offset, n), Section(whole, offset, n);
      if p.Failed? then w == p
      else w.Parsed? && w.next == p.next && |w.value| == |p.value|
           && forall i :: 0 <= i < |p.value| ==> same(p.value[i], w.value[i])
    decreases n
  {
    if n > 0 {
      assert Settled(part(offset), whole(offset), same);
      if part(offset).Parsed? {
        SectionStable(part, whole, same, part(offset).next, n - 1);
      }
    }
  }

  lemma QuestionsStable(data: seq<byte>, longer: seq<byte>, offset: nat, n: nat)
    requires data <= longer && Section(Questions(data), offset, n) != Failed(Truncated)
    ensures Section(Questions(longer), offset, n) == Section(Questions(data), offset, n)
  {
    forall o: nat
      ensures Settled(Questions(data)(o), Questions(longer)(o), SameQuestion())
    {
      if QuestionAt(data, o) != Failed(Truncated) {
        QuestionStable(data, longer, o);
      }
    }
    SectionStable(Questions(data), Questions(longer), SameQuestion(), offset, n);
    var p, w := Section(Questions(data), offset, n), Section(Questions(longer), offset, n);
    assert p.Parsed? ==> p.value == w.value;
  }

  predicate RecordsSettled(part: Parsed<seq<Record>>, whole: Parsed<seq<Record>>) {
    part != Failed(Truncated) ==>
      if part.Failed? then whole == part
      else whole.Parsed? && whole.next == part.next && RecordsRefine(part.value, whole.value)
  }

  lemma AnswersStable(data: seq<byte>, longer: seq<byte>, offset: nat, n: nat)
    requires data <= longer
    ensures RecordsSettled(Section(Answers(data), offset, n), Section(Answers(longer), offset, n))
  {
    if Section(Answers(data), offset, n) == Failed(Truncated) {
      return;
    }
    forall o: nat
      ensures Settled(Answers(data)(o), Answers(longer)(o), SameRecord())
    {
      RecordStable(data, longer, o);
    }
    SectionStable(Answers(data), Answers(longer), SameRecord(), offset, n);
    var p, w := Section(Answers(data), offset, n), Section(Answers(longer), offset, n);
    assert p.Parsed? ==> forall i :: 0 <= i < |p.value| ==> SameRecord()(p.value[i], w.value[i]);
  }

  /** A verdict on a message other than Truncated, and how a longer capture must agree with it. */
  predicate MessageSettled(part: Parsed<Info>, whole: Parsed<Info>) {
    part != Failed(Truncated) ==>
      if part.Failed? then whole == part
      else whole.Parsed? && whole.next == part.next && InfoRefines(part.value, whole.value)
  }

  lemma AssembleStable(data: seq<byte>, longer: seq<byte>, questions: Parsed<seq<Question>>,
                       part: Parsed<seq<Record>>, whole: Parsed<seq<Record>>)
    requires data <= longer && InBounds(|data|, 0, HEADER_LEN)
    requires RecordsSettled(part, whole)
    ensures MessageSettled(Assemble(data, questions, part), Assemble(longer, questions, whole))
  {
  }

  lemma AnswerSectionStable(data: seq<byte>, longer: seq<byte>, questions: Parsed<seq<Question>>)
    requires data <= longer && InBounds(|data|, 0, HEADER_LEN)
    ensures RecordsSettled(AnswerSection(data, questions), AnswerSection(longer, questions))
  {
    if questions.Parsed? {
      assert U16(longer, 6) == U16(data, 6);
      AnswersStable(data, longer, questions.next, Min(U16(data, 6), MAX_ANSWERS));
    }
  }

  lemma AnswersSettle(data: seq<byte>, longer: seq<byte>, questions: Parsed<seq<Question>>)
    requires data <= longer && InBounds(|data|, 0, HEADER_LEN)
    ensures MessageSettled(Assemble(data, questions, AnswerSection(data, questions)),
                           Assemble(longer, questions, AnswerSection(longer, questions)))
  {
    AnswerSectionStable(data, longer, questions);
    AssembleStable(data, longer, questions, AnswerSection(data, questions), AnswerSection(longer, questions));
  }

  /** Truncation is the only verdict on a message that more bytes can change. An accepted message
      keeps its header, questions, names, types, times to live and offsets; a record's data text
      stays the same unless it was the fallback. */
  lemma MessageStable(data: seq<byte>, longer: seq<byte>)
    requires data <= longer
    ensures MessageSettled(Message(data), Message(longer))
  {
    if InBounds(|data|, 0, HEADER_LEN) && QuestionSection(data) != Failed(Truncated) {
      QuestionsStable(data, longer, HEADER_LEN, U16(data, 4));
      AnswersSettle(data, longer, QuestionSection(data));
    }
  }
}
