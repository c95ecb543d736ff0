/** Which DNS messages src/protocols/dns.c calls truncated and which malformed. What befalls a single
    name is said in bytes in DnsNameBytes. */
module DnsVerdicts {
  import opened Bytes
  import opened DnsName
  import opened DnsMessage

  /** A question is malformed exactly when its name is, and truncated exactly when its name is or when
      fewer than four bytes follow it. */
  lemma QuestionFails(data: seq<byte>, offset: nat)
    ensures var name, end := Decode(data, offset, 256).status, NameEnd(data, offset);
      && (QuestionAt(data, offset) == Failed(Malformed) <==> name == Malformed)
      && (QuestionAt(data, offset) == Failed(Truncated) <==> name == Truncated || (name == Ok && end + 4 > |data|))
      && QuestionAt(data, offset) != Failed(Ok) && QuestionAt(data, offset) != Failed(Unsupported)
  {
    hide NameEnd, NameText;
  }

  /** A record is malformed exactly when its name is; its data is never at fault. It is truncated when
      its name is, or when its ten fixed bytes or the data that they announce were not captured. */
  lemma RecordFails(data: seq<byte>, offset: nat)
    ensures var name, end := Decode(data, offset, 256).status, NameEnd(data, offset);
      && (RecordAt(data, offset) == Failed(Malformed) <==> name == Malformed)
      && (RecordAt(data, offset) == Failed(Truncated) <==>
            || name == Truncated
            || (name == Ok && (|| end + 10 > |data|
                               || end + 10 + 0x100 * data[end + 8] as int + data[end + 9] as int > |data|)))
      && RecordAt(data, offset) != Failed(Ok) && RecordAt(data, offset) != Failed(Unsupported)
  {
    hide NameEnd, NameText, RdataText;
  }

  /** Item `k` is the first that cannot be read, for the reason `s`. */
  predicate FirstFault<T>(read: nat -> Parsed<T>, at: nat, k: nat, s: Status) {
    Section(read, at, k).Parsed? && read(Section(read, at, k).next) == Failed(s)
  }

  lemma SectionGrows<T>(read: nat -> Parsed<T>, at: nat, k: nat)
    requires read(at).Parsed?
    ensures var rest := Section(read, read(at).next, k);
      && (Section(read, at, k + 1).Parsed? <==> rest.Parsed?)
      && (rest.Parsed? ==> Section(read, at, k + 1).next == rest.next)
      && (rest.Failed? ==> Section(read, at, k + 1) == Failed(rest.status))
  {
  }

  /** A section fails with the verdict on its first item that cannot be read. */
  lemma {:induction false} SectionFails<T>(read: nat -> Parsed<T>, at: nat, n: nat, s: Status)
    ensures Section(read, at, n) == Failed(s) <==> exists k: nat :: k < n && FirstFault(read, at, k, s)
    decreases n
  {
    if n > 0 && read(at).Parsed? {
      var next := read(at).next;
      SectionFails(read, next, n - 1, s);
      forall k: nat
        ensures FirstFault(read, next, k, s) <==> FirstFault(read, at, k + 1, s)
      {
        SectionGrows(read, at, k);
      }
      SectionGrows(read, at, n - 1);
      assert !FirstFault(read, at, 0, s);
      if k: nat :| k < n && FirstFault(read, at, k, s) {
        assert k > 0 && FirstFault(read, next, k - 1, s);
      }
      if k: nat :| k < n - 1 && FirstFault(read, next, k, s) {
        assert FirstFault(read, at, k + 1, s);
      }
    } else if n > 0 {
      NoSectionBehind(read, at, s);
      assert read(at) == Failed(s) ==> FirstFault(read, at, 0, s);
    }
  }

  lemma NoSectionBehind<T>(read: nat -> Parsed<T>, at: nat, s: Status)
    requires read(at).Failed?
    ensures forall k: nat :: FirstFault(read, at, k, s) <==> k == 0 && read(at) == Failed(s)
  {
    assert Section(read, at, 0) == Parsed([], at);
  }

  /** A question that cannot be read, of as many as bytes 4 and 5 of the message say. */
  ghost predicate QuestionFault(data: seq<byte>, s: Status)
    requires |data| >= 12
  {
    exists k: nat :: k < 0x100 * data[4] as int + data[5] as int && FirstFault(Questions(data), 12, k, s)
  }

  /** All questions can be read, and one of the first twelve answers cannot. */
  ghost predicate AnswerFault(data: seq<byte>, s: Status)
    requires |data| >= 12
  {
    var questions := Section(Questions(data), 12, 0x100 * data[4] as int + data[5] as int);
    && questions.Parsed?
    && exists k: nat :: k < 12 && k < 0x100 * data[6] as int + data[7] as int &&
                        FirstFault(Answers(data), questions.next, k, s)
  }

  /** The verdict on a message is that of the first item that cannot be read; a message shorter than
      its header is truncated. */
  lemma MessageFails(data: seq<byte>, s: Status)
    ensures Message(data) == Failed(s) <==>
            if |data| < 12 then s == Truncated else QuestionFault(data, s) || AnswerFault(data, s)
  {
    hide Section, FirstFault, Questions, Answers;
    if |data| >= 12 {
      var qd, an := U16(data, 4), U16(data, 6);
      var questions := Section(Questions(data), 12, qd);
      SectionFails(Questions(data), 12, qd, s);
      if questions.Parsed? {
        SectionFails(Answers(data), questions.next, Min(an, 12), s);
      } else {
        SectionFails(Questions(data), 12, qd, questions.status);
      }
    }
  }

  /** A question whose name begins with the reserved byte 0x40 is malformed, not the root. */
  lemma ReservedLabelIsMalformed()
    ensures Message([0x12, 0x34, 1, 0, 0, 1, 0, 0, 0, 0, 0, 0, 0x40, 0, 0, 1, 0, 1]) == Failed(Malformed)
  {
    var data: seq<byte> := [0x12, 0x34, 1, 0, 0, 1, 0, 0, 0, 0, 0, 0, 0x40, 0, 0, 1, 0, 1];
    assert data[12] == 0x40 && data[4] == 0 && data[5] == 1;
    QuestionFails(data, 12);
    assert StepAt(data, 12) == Reserved;
    assert Section(Questions(data), 12, 0) == Parsed([], 12);
    assert FirstFault(Questions(data), 12, 0, Malformed);
    MessageFails(data, Malformed);
  }
}
