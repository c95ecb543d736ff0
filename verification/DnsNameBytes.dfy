/** The name decoder of src/protocols/dns.c against the bytes of the message: what is stated here
    names byte values, as section 4.1.4 of RFC 1035 does, and nothing of the decoder's own reading. */
module DnsNameBytes {
  import opened Bytes
  import opened Numerals
  import opened DnsName
  import opened DnsNameTheorems

  // ----- Names as bytes -----

  /** The first `k` labels and then a pointer to `target` are written at `pos`. */
  predicate HopAt(data: seq<byte>, pos: nat, labels: seq<Label>, k: nat, target: nat) {
    && k <= |labels| && LegalLabels(labels[..k]) && target < 0x4000
    && WrittenAt(data, pos, Wire(labels[..k]) + Pointer(target))
  }

  /** A name with exactly `pointers` pointers, byte for byte: length bytes from 1 to 63 in front of
      their labels, and at the end a zero byte or a pointer to where the rest is written. */
  ghost predicate NameWritten(data: seq<byte>, pos: nat, labels: seq<Label>, pointers: nat)
    decreases pointers
  {
    if pointers == 0 then LegalLabels(labels) && WrittenAt(data, pos, Wire(labels) + [0])
    else exists k: nat, target: nat ::
      HopAt(data, pos, labels, k, target) && NameWritten(data, target, labels[k..], pointers - 1)
  }

  lemma WrittenSplit(data: seq<byte>, pos: nat, a: seq<byte>, b: seq<byte>)
    requires WrittenAt(data, pos, a) && WrittenAt(data, pos + |a|, b)
    ensures WrittenAt(data, pos, a + b)
  {
    forall i | 0 <= i < |a + b|
      ensures data[pos + i] == (a + b)[i]
    {
      if i >= |a| {
        assert data[pos + |a| + (i - |a|)] == b[i - |a|];
      }
    }
  }

  lemma PointerBytes(high: byte, low: byte)
    requires high >= 0xC0
    ensures (0x100 * high as int + low as int) % 0x4000 == 0x100 * (high as int - 0xC0) + low as int
  {
  }

  lemma PointerIsWritten(data: seq<byte>, pos: nat)
    requires InBounds(|data|, pos, 2) && data[pos] >= 0xC0
    ensures WrittenAt(data, pos, Pointer(U16(data, pos) % 0x4000))
  {
    PointerBytes(data[pos], data[pos + 1]);
    var target := U16(data, pos) % 0x4000;
    assert target / 0x100 == data[pos] - 0xC0 && target % 0x100 == data[pos + 1];
  }

  lemma LabelIsWritten(data: seq<byte>, pos: nat)
    requires pos < |data| && InBounds(|data|, pos + 1, data[pos])
    ensures WrittenAt(data, pos, [data[pos]] + data[pos + 1..pos + 1 + data[pos]])
  {
    assert [data[pos]] + data[pos + 1..pos + 1 + data[pos]] == data[pos..pos + 1 + data[pos]];
  }

  /** What the decoder takes for a label, a pointer or the end is written as one. */
  lemma StepIsWritten(data: seq<byte>, pos: nat)
    ensures match StepAt(data, pos)
      case End => WrittenAt(data, pos, [0])
      case Jump(target) => target < 0x4000 && WrittenAt(data, pos, Pointer(target))
      case Literal(lab, next) => 1 <= |lab| <= 63 && WrittenAt(data, pos, [|lab|] + lab)
      case _ => true
  {
    hide Pointer, U16;
    match StepAt(data, pos)
    case Jump(_) => PointerIsWritten(data, pos);
    case Literal(lab, _) =>
      assert |lab| == data[pos];
      LabelIsWritten(data, pos);
    case _ =>
  }

  lemma Regroup(a: seq<byte>, b: seq<byte>, c: seq<byte>)
    ensures a + (b + c) == (a + b) + c
  {
  }

  lemma LegalFirst(labels: seq<Label>)
    requires labels != [] && 1 <= |labels[0]| <= 63 && LegalLabels(labels[1..])
    ensures LegalLabels(labels)
  {
    assert labels == [labels[0]] + labels[1..];
  }

  /** The label read at `pos` goes in front of what is written behind it. */
  lemma WrittenBehind(data: seq<byte>, pos: nat, labels: seq<Label>, tail: seq<byte>)
    requires labels != [] && 1 <= |labels[0]| <= 63 && LegalLabels(labels[1..])
    requires WrittenAt(data, pos, [|labels[0]|] + labels[0])
    requires WrittenAt(data, pos + 1 + |labels[0]|, Wire(labels[1..]) + tail)
    ensures LegalLabels(labels) && WrittenAt(data, pos, Wire(labels) + tail)
  {
    hide WrittenAt, LegalLabels;
    LegalFirst(labels);
    var first := [|labels[0]|] + labels[0];
    WrittenSplit(data, pos, first, Wire(labels[1..]) + tail);
    Regroup(first, Wire(labels[1..]), tail);
  }

  lemma {:induction false} SpelledIsWritten(data: seq<byte>, pos: nat, labels: seq<Label>, pointers: nat)
    requires Spells(data, pos, labels, pointers)
    ensures NameWritten(data, pos, labels, pointers)
    decreases |labels| + pointers
  {
    hide StepAt, WrittenAt;
    StepIsWritten(data, pos);
    match StepAt(data, pos)
    case End => assert Wire(labels) + [0] == [0];
    case Jump(target) =>
      SpelledIsWritten(data, target, labels, pointers - 1);
      assert labels[..0] == [] && labels[0..] == labels && Wire([]) + Pointer(target) == Pointer(target);
      assert HopAt(data, pos, labels, 0, target);
    case Literal(lab, next) =>
      SpelledIsWritten(data, next, labels[1..], pointers);
      if pointers == 0 {
        WrittenBehind(data, pos, labels, [0]);
      } else {
        HopBehind(data, pos, labels, pointers);
      }
  }

  lemma HopBehind(data: seq<byte>, pos: nat, labels: seq<Label>, pointers: nat)
    requires labels != [] && pointers > 0 && 1 <= |labels[0]| <= 63
    requires WrittenAt(data, pos, [|labels[0]|] + labels[0])
    requires NameWritten(data, pos + 1 + |labels[0]|, labels[1..], pointers)
    ensures NameWritten(data, pos, labels, pointers)
  {
    hide WrittenAt;
    var rest, next := labels[1..], pos + 1 + |labels[0]|;
    var k: nat, target: nat :| HopAt(data, next, rest, k, target) && NameWritten(data, target, rest[k..], pointers - 1);
    assert labels[..k + 1][1..] == rest[..k] && labels[k + 1..] == rest[k..];
    WrittenBehind(data, pos, labels[..k + 1], Pointer(target));
    assert HopAt(data, pos, labels, k + 1, target);
  }

  lemma {:induction false} WrittenIsSpelled(data: seq<byte>, pos: nat, labels: seq<Label>, pointers: nat)
    requires NameWritten(data, pos, labels, pointers)
    ensures Spells(data, pos, labels, pointers)
    decreases pointers
  {
    hide StepAt, WrittenAt, Spells, LegalLabels;
    if pointers == 0 {
      SpellsPlain(data, pos, labels);
    } else {
      var k: nat, target: nat :|
        HopAt(data, pos, labels, k, target) && NameWritten(data, target, labels[k..], pointers - 1);
      WrittenIsSpelled(data, target, labels[k..], pointers - 1);
      SpellsPacked(data, pos, labels[..k], labels[k..], target, pointers - 1);
      assert labels[..k] + labels[k..] == labels;
    }
  }

  /** The reading that the decoder is proved against is the writing of the standard, both ways. */
  lemma SpellsExactly(data: seq<byte>, pos: nat, labels: seq<Label>, pointers: nat)
    ensures Spells(data, pos, labels, pointers) <==> NameWritten(data, pos, labels, pointers)
  {
    hide Spells, NameWritten;
    if Spells(data, pos, labels, pointers) {
      SpelledIsWritten(data, pos, labels, pointers);
    }
    if NameWritten(data, pos, labels, pointers) {
      WrittenIsSpelled(data, pos, labels, pointers);
    }
  }

  /** A name that a buffer of `cap` bytes has room for: its text, its terminator, and a dot behind
      its first label. */
  ghost predicate Acceptable(data: seq<byte>, pos: nat, labels: seq<Label>, pointers: nat, cap: nat) {
    NameWritten(data, pos, labels, pointers) && pointers <= 32 && Fits(labels, cap)
  }

  /** The decoder accepts exactly the names written with at most 32 pointers that fit the buffer, and
      then yields exactly their labels. */
  lemma DecodesWrittenNames(data: seq<byte>, pos: nat, cap: nat)
    ensures Decode(data, pos, cap).status == Ok <==>
      exists labels: seq<Label>, pointers: nat :: Acceptable(data, pos, labels, pointers, cap)
    ensures forall labels: seq<Label>, pointers: nat ::
      Decode(data, pos, cap).status == Ok && NameWritten(data, pos, labels, pointers)
      ==> Decode(data, pos, cap).labels == labels
  {
    hide Decode, Spells, NameWritten, Fits;
    DecodesExactly(data, pos, cap);
    forall labels: seq<Label>, pointers: nat
      ensures Acceptable(data, pos, labels, pointers, cap) <==> Decodable(data, pos, labels, pointers, cap)
      ensures NameWritten(data, pos, labels, pointers) <==> Spells(data, pos, labels, pointers)
    {
      SpellsExactly(data, pos, labels, pointers);
    }
  }

  lemma {:induction false} EndBehindLabels(data: seq<byte>, pos: nat, front: seq<Label>)
    requires LegalLabels(front) && WrittenAt(data, pos, Wire(front))
    ensures NameEnd(data, pos) == NameEnd(data, pos + |Wire(front)|)
    decreases |front|
  {
    hide StepAt, WrittenAt;
    if front != [] {
      FirstWritten(data, pos, front);
      EndBehindLabels(data, pos + 1 + |front[0]|, front[1..]);
    }
  }

  lemma EndOfOne(data: seq<byte>, pos: nat, target: nat)
    ensures WrittenAt(data, pos, [0]) ==> NameEnd(data, pos) == pos + 1
    ensures target < 0x4000 && WrittenAt(data, pos, Pointer(target)) ==> NameEnd(data, pos) == pos + 2
  {
    if WrittenAt(data, pos, [0]) {
      assert data[pos + 0] == [0][0];
    }
    if target < 0x4000 && WrittenAt(data, pos, Pointer(target)) {
      PointerStep(data, pos, target);
    }
  }

  /** A name ends behind its zero byte, or behind its first pointer. */
  lemma NameEndExactly(data: seq<byte>, pos: nat, labels: seq<Label>, k: nat, target: nat)
    ensures LegalLabels(labels) && WrittenAt(data, pos, Wire(labels) + [0]) ==>
            NameEnd(data, pos) == pos + |Wire(labels)| + 1
    ensures HopAt(data, pos, labels, k, target) ==> NameEnd(data, pos) == pos + |Wire(labels[..k])| + 2
  {
    hide WrittenAt, NameEnd, Wire, LegalLabels;
    if LegalLabels(labels) && WrittenAt(data, pos, Wire(labels) + [0]) {
      WrittenInParts(data, pos, Wire(labels), [0]);
      EndBehindLabels(data, pos, labels);
      EndOfOne(data, pos + |Wire(labels)|, 0);
    }
    if HopAt(data, pos, labels, k, target) {
      WrittenInParts(data, pos, Wire(labels[..k]), Pointer(target));
      EndBehindLabels(data, pos, labels[..k]);
      EndOfOne(data, pos + |Wire(labels[..k])|, target);
    }
  }

  // ----- The walk as bytes -----

  /** From `p` the name goes on at `q`: behind the label written at `p`, or where its pointer leads. */
  predicate GoesOn(data: seq<byte>, p: nat, q: nat) {
    && p < |data|
    && if data[p] >= 0xC0 then p + 1 < |data| && q == 0x100 * (data[p] as int - 0xC0) + data[p + 1] as int
       else 1 <= data[p] <= 63 && q == p + 1 + data[p] <= |data|
  }

  /** The labels written at those of `path` that hold no pointer. */
  function LabelsAlong(data: seq<byte>, path: seq<nat>): seq<Label> {
    if path == [] then []
    else
      var p, rest := path[0], LabelsAlong(data, path[1..]);
      if p < |data| && data[p] < 0xC0 && p + 1 + data[p] <= |data| then [data[p + 1..p + 1 + data[p]]] + rest else rest
  }

  /** How many bytes of text `labels` add behind `used` bytes: a dot in front of all but the first. */
  function TextAfter(used: nat, labels: seq<Label>): nat
    decreases |labels|
  {
    if labels == [] then used
    else TextAfter(if used == 0 then |labels[0]| else used + 1 + |labels[0]|, labels[1..])
  }

  /** Bytes are missing at `p`: the length byte, a pointer's second byte or part of a label. */
  predicate CutAt(data: seq<byte>, p: nat) {
    || p >= |data|
    || (data[p] >= 0xC0 && p + 2 > |data|)
    || (1 <= data[p] <= 63 && p + 1 + data[p] > |data|)
  }

  /** The name breaks a rule at `p`: a length byte from 0x40 to 0xBF, one pointer more than allowed,
      or a label for which `cap` bytes have no room behind `used` bytes of text and a dot. */
  predicate BreaksAt(data: seq<byte>, p: nat, pointersLeft: nat, used: nat, cap: nat) {
    p < |data| &&
    (|| 0x40 <= data[p] < 0xC0
     || (data[p] >= 0xC0 && p + 2 <= |data| && pointersLeft == 0)
     || (1 <= data[p] <= 63 && p + 1 + data[p] <= |data| && used + data[p] + 1 >= cap))
  }

  /** The verdict at the last position `p` of a walk. */
  predicate Verdict(data: seq<byte>, status: Status, p: nat, pointersLeft: int, used: nat, cap: nat) {
    && pointersLeft >= 0
    && (status == Truncated <==> CutAt(data, p))
    && (status == Malformed <==> BreaksAt(data, p, pointersLeft, used, cap))
    && (status == Ok <==> p < |data| && data[p] == 0)
  }

  predicate Connected(data: seq<byte>, path: seq<nat>) {
    forall i :: 0 <= i < |path| - 1 ==> GoesOn(data, path[i], path[i + 1])
  }

  /** A walk, byte for byte: each position leads to the next, the labels are those passed, and the
      last position decides the verdict. */
  predicate WalkedInBytes(data: seq<byte>, w: Walk, used: nat, cap: nat, pointersLeft: nat) {
    && w.path != []
    && Connected(data, w.path)
    && var last := |w.path| - 1;
       && w.labels == LabelsAlong(data, w.path[..last])
       && Verdict(data, w.status, w.path[last], pointersLeft - (last - |w.labels|), TextAfter(used, w.labels), cap)
  }

  lemma EndsInBytes(data: seq<byte>, pos: nat, used: nat, cap: nat, jumps: nat)
    requires jumps <= MAX_JUMPS && |WalkFrom(data, pos, used, cap, jumps).path| == 1
    ensures WalkedInBytes(data, WalkFrom(data, pos, used, cap, jumps), used, cap, 32 - jumps)
  {
  }

  lemma StepGoesOn(data: seq<byte>, pos: nat)
    ensures match StepAt(data, pos)
      case Jump(target) => GoesOn(data, pos, target) && data[pos] >= 0xC0
      case Literal(lab, next) =>
        && GoesOn(data, pos, next) && 1 <= data[pos] <= 63 && next <= |data|
        && lab == data[pos + 1..next] && next == pos + 1 + data[pos]
      case _ => true
  {
  }

  lemma ConnectedBehind(data: seq<byte>, pos: nat, path: seq<nat>)
    requires path != [] && GoesOn(data, pos, path[0]) && Connected(data, path)
    ensures Connected(data, [pos] + path)
  {
    hide GoesOn;
    var longer := [pos] + path;
    forall i | 0 <= i < |longer| - 1
      ensures GoesOn(data, longer[i], longer[i + 1])
    {
      assert i > 0 ==> longer[i] == path[i - 1];
    }
  }

  lemma PointerInFront(data: seq<byte>, pos: nat, rest: Walk, used: nat, cap: nat, left: nat)
    requires WalkedInBytes(data, rest, used, cap, left)
    requires GoesOn(data, pos, rest.path[0]) && data[pos] >= 0xC0
    ensures WalkedInBytes(data, Walk(rest.status, rest.labels, [pos] + rest.path), used, cap, left + 1)
  {
    hide Verdict, Connected;
    ConnectedBehind(data, pos, rest.path);
    var last := |rest.path| - 1;
    var longer := [pos] + rest.path;
    assert longer[..last + 1] == [pos] + rest.path[..last] && longer[last + 1] == rest.path[last];
    assert longer[..last + 1][1..] == rest.path[..last];
  }

  lemma LabelInFront(data: seq<byte>, pos: nat, lab: Label, rest: Walk, used: nat, cap: nat, left: nat)
    requires WalkedInBytes(data, rest, if used == 0 then |lab| else used + 1 + |lab|, cap, left)
    requires GoesOn(data, pos, rest.path[0]) && data[pos] < 0xC0 && lab == data[pos + 1..pos + 1 + data[pos]]
    ensures WalkedInBytes(data, Walk(rest.status, [lab] + rest.labels, [pos] + rest.path), used, cap, left)
  {
    hide Verdict, Connected;
    ConnectedBehind(data, pos, rest.path);
    var last := |rest.path| - 1;
    var longer := [pos] + rest.path;
    assert longer[..last + 1] == [pos] + rest.path[..last] && longer[last + 1] == rest.path[last];
    assert longer[..last + 1][1..] == rest.path[..last];
    assert ([lab] + rest.labels)[1..] == rest.labels;
  }

  lemma {:induction false} WalkInBytes(data: seq<byte>, pos: nat, used: nat, cap: nat, jumps: nat)
    requires jumps <= MAX_JUMPS
    ensures WalkedInBytes(data, WalkFrom(data, pos, used, cap, jumps), used, cap, 32 - jumps)
    decreases MAX_JUMPS - jumps, |data| - pos
  {
    hide WalkedInBytes, StepAt, GoesOn;
    StepGoesOn(data, pos);
    var step := StepAt(data, pos);
    if step.Jump? && jumps < MAX_JUMPS {
      WalkInBytes(data, step.target, used, cap, jumps + 1);
      PointerInFront(data, pos, WalkFrom(data, step.target, used, cap, jumps + 1), used, cap, 32 - jumps - 1);
    } else if step.Literal? && used + |step.lab| + 1 < cap {
      var grown := Grown(used, step.lab);
      WalkInBytes(data, step.next, grown, cap, jumps);
      LabelInFront(data, pos, step.lab, WalkFrom(data, step.next, grown, cap, jumps), used, cap, 32 - jumps);
    } else {
      EndsInBytes(data, pos, used, cap, jumps);
    }
  }

  lemma {:induction false} TextAfterIsText(used: nat, labels: seq<Label>)
    requires LegalLabels(labels) && labels != []
    ensures TextAfter(used, labels) == |Dotted(labels)| + if used == 0 then 0 else used + 1
    decreases |labels|
  {
    if |labels| > 1 {
      TextAfterIsText(if used == 0 then |labels[0]| else used + 1 + |labels[0]|, labels[1..]);
    }
  }

  /** What the decoder does with any message, said in bytes. It visits positions each of which leads
      to the next, and stops at the first where bytes are missing (Truncated), where the name breaks
      a rule (Malformed: a length byte from 0x40 to 0xBF, a thirty-third pointer, a label that does
      not fit) or where it ends (Ok). */
  lemma DecoderInBytes(data: seq<byte>, pos: nat, cap: nat)
    ensures var w := Decode(data, pos, cap);
      && w.path != [] && w.path[0] == pos && Connected(data, w.path)
      && var last := |w.path| - 1;
         && w.labels == LabelsAlong(data, w.path[..last])
         && var pointers := last - |w.labels|;
            Verdict(data, w.status, w.path[last], 32 - pointers, |Dotted(w.labels)|, cap)
  {
    hide StepAt, Verdict, Connected;
    WalkInBytes(data, pos, 0, cap, 0);
    var w := Decode(data, pos, cap);
    LabelsAreLegal(data, pos, 0, cap, 0);
    if w.labels != [] {
      TextAfterIsText(0, w.labels);
    }
  }

  lemma {:induction false} LabelsAreLegal(data: seq<byte>, pos: nat, used: nat, cap: nat, jumps: nat)
    requires jumps <= MAX_JUMPS
    ensures LegalLabels(WalkFrom(data, pos, used, cap, jumps).labels)
    decreases MAX_JUMPS - jumps, |data| - pos
  {
    hide StepAt;
    var step := StepAt(data, pos);
    if step.Jump? && jumps < MAX_JUMPS {
      LabelsAreLegal(data, step.target, used, cap, jumps + 1);
    } else if step.Literal? && used + |step.lab| + 1 < cap {
      LabelsAreLegal(data, step.next, Grown(used, step.lab), cap, jumps);
    }
  }

  // ----- The text of a name -----

  function Texts(labels: seq<Label>): seq<string> {
    seq(|labels|, i requires 0 <= i < |labels| => Chars(labels[i]))
  }

  lemma {:induction false} DottedJoins(labels: seq<Label>)
    ensures Dotted(labels) == Join(Texts(labels), '.')
  {
    if |labels| > 1 {
      DottedJoins(labels[1..]);
      assert Texts(labels)[1..] == Texts(labels[1..]);
    }
  }

  /** The text is the labels' bytes with dots between them, or one dot for the root; where no label
      holds a dot, splitting it at the dots gives the labels back. */
  lemma NameTextJoins(labels: seq<Label>)
    ensures NameText([]) == "."
    ensures labels != [] ==> NameText(labels) == Join(Texts(labels), '.')
    ensures labels != [] && (forall i :: 0 <= i < |labels| ==> 46 !in labels[i]) ==>
            Split(NameText(labels), '.') == Texts(labels)
  {
    DottedJoins(labels);
    if labels != [] && (forall i :: 0 <= i < |labels| ==> 46 !in labels[i]) {
      forall text | text in Texts(labels)
        ensures '.' !in text
      {
        var i :| 0 <= i < |labels| && text == Chars(labels[i]);
        assert forall k :: 0 <= k < |text| ==> text[k] as int == labels[i][k];
        assert forall k :: 0 <= k < |text| ==> labels[i][k] in labels[i];
      }
      SplitJoin(Texts(labels), '.');
    }
  }
}
