/** What the name decoder of src/protocols/dns.c guarantees for every message. */
module DnsNameTheorems {
  import opened Bytes
  import opened DnsName

  // ----- The standard's reading is a function of the message -----

  lemma {:induction false} SpellsUnique(data: seq<byte>, pos: nat, a: seq<Label>, i: nat, b: seq<Label>, j: nat)
    requires Spells(data, pos, a, i) && Spells(data, pos, b, j)
    ensures a == b && i == j
    decreases |a| + i
  {
    match StepAt(data, pos)
    case End =>
    case Jump(target) => SpellsUnique(data, target, a, i - 1, b, j - 1);
    case Literal(_, next) =>
      SpellsUnique(data, next, a[1..], i, b[1..], j);
      assert a == [a[0]] + a[1..] && b == [b[0]] + b[1..];
  }

  // ----- Soundness and completeness -----

  /** The buffer check, label after label, behind `used` characters of text. */
  predicate FitsBehind(used: nat, labels: seq<Label>, cap: nat)
    decreases |labels|
  {
    labels == [] ||
    (used + |labels[0]| + 1 < cap && FitsBehind(Grown(used, labels[0]), labels[1..], cap))
  }

  lemma {:induction false} WalkSound(data: seq<byte>, pos: nat, used: nat, cap: nat, jumps: nat)
    requires jumps <= MAX_JUMPS
    requires WalkFrom(data, pos, used, cap, jumps).status == Ok
    ensures var w := WalkFrom(data, pos, used, cap, jumps);
      && 1 + |w.labels| <= |w.path| <= 1 + |w.labels| + MAX_JUMPS - jumps
      && Spells(data, pos, w.labels, |w.path| - 1 - |w.labels|)
      && FitsBehind(used, w.labels, cap)
    decreases MAX_JUMPS - jumps, |data| - pos
  {
    match StepAt(data, pos)
    case End =>
    case Jump(target) => WalkSound(data, target, used, cap, jumps + 1);
    case Literal(lab, next) =>
      WalkSound(data, next, Grown(used, lab), cap, jumps);
      var rest := WalkFrom(data, next, Grown(used, lab), cap, jumps);
      assert ([lab] + rest.labels)[1..] == rest.labels;
  }

  lemma {:induction false} WalkComplete(data: seq<byte>, pos: nat, used: nat, cap: nat, jumps: nat,
                                        labels: seq<Label>, pointers: nat)
    requires jumps + pointers <= MAX_JUMPS
    requires Spells(data, pos, labels, pointers) && FitsBehind(used, labels, cap)
    ensures var w := WalkFrom(data, pos, used, cap, jumps);
      w.status == Ok && w.labels == labels && |w.path| == 1 + |labels| + pointers
    decreases |labels| + pointers
  {
    match StepAt(data, pos)
    case End =>
    case Jump(target) => WalkComplete(data, target, used, cap, jumps + 1, labels, pointers - 1);
    case Literal(lab, next) =>
      WalkComplete(data, next, Grown(used, lab), cap, jumps, labels[1..], pointers);
      assert labels == [lab] + labels[1..];
  }

  /** The label-by-label check amounts to one bound on the finished text. */
  lemma {:induction false} FitsBehindMeans(used: nat, labels: seq<Label>, cap: nat)
    requires used > 0 && labels != [] && forall i :: 0 <= i < |labels| ==> labels[i] != []
    ensures FitsBehind(used, labels, cap) <==> used + 1 + |Dotted(labels)| < cap
    decreases |labels|
  {
    if |labels| > 1 {
      FitsBehindMeans(Grown(used, labels[0]), labels[1..], cap);
    }
  }

  /** The text and its terminator fit, and so does the dot that the decoder always reserves
      behind the first label. */
  predicate Fits(labels: seq<Label>, cap: nat) {
    labels == [] || (|labels[0]| + 1 < cap && |NameText(labels)| < cap)
  }

  /** A name a decoder with a `cap`-byte buffer must accept. */
  predicate Decodable(data: seq<byte>, pos: nat, labels: seq<Label>, pointers: nat, cap: nat) {
    Spells(data, pos, labels, pointers) && pointers <= MAX_JUMPS && Fits(labels, cap)
  }

  predicate LegalLabels(labels: seq<Label>) {
    forall i :: 0 <= i < |labels| ==> 1 <= |labels[i]| <= 63
  }

  lemma {:induction false} SpelledLabels(data: seq<byte>, pos: nat, labels: seq<Label>, pointers: nat)
    requires Spells(data, pos, labels, pointers)
    ensures LegalLabels(labels)
    decreases |labels| + pointers
  {
    match StepAt(data, pos)
    case End =>
    case Jump(target) => SpelledLabels(data, target, labels, pointers - 1);
    case Literal(lab, next) =>
      SpelledLabels(data, next, labels[1..], pointers);
      assert labels == [lab] + labels[1..];
  }

  lemma FitsMeans(labels: seq<Label>, cap: nat)
    requires LegalLabels(labels)
    ensures FitsBehind(0, labels, cap) <==> Fits(labels, cap)
    ensures cap >= 65 ==> (Fits(labels, cap) <==> |NameText(labels)| < cap)
  {
    if |labels| > 1 {
      FitsBehindMeans(|labels[0]|, labels[1..], cap);
    }
  }

  /** The decoder accepts exactly the names that the standard spells through at most 32 pointers
      and that fit the buffer, and then yields exactly their labels. */
  lemma DecodesExactly(data: seq<byte>, pos: nat, cap: nat)
    ensures Decode(data, pos, cap).status == Ok <==>
      exists labels: seq<Label>, pointers: nat :: Decodable(data, pos, labels, pointers, cap)
    ensures forall labels: seq<Label>, pointers: nat ::
      Decode(data, pos, cap).status == Ok && Spells(data, pos, labels, pointers)
      ==> Decode(data, pos, cap).labels == labels
  {
    var w := Decode(data, pos, cap);
    if w.status == Ok {
      WalkSound(data, pos, 0, cap, 0);
      var j: nat := |w.path| - 1 - |w.labels|;
      SpelledLabels(data, pos, w.labels, j);
      FitsMeans(w.labels, cap);
      assert Decodable(data, pos, w.labels, j, cap);
      forall labels: seq<Label>, pointers: nat | Spells(data, pos, labels, pointers)
        ensures labels == w.labels
      {
        SpellsUnique(data, pos, labels, pointers, w.labels, j);
      }
    }
    if labels: seq<Label>, pointers: nat :| Decodable(data, pos, labels, pointers, cap) {
      SpelledLabels(data, pos, labels, pointers);
      FitsMeans(labels, cap);
      WalkComplete(data, pos, 0, cap, 0, labels, pointers);
    }
  }

  /** With the buffers the callers pass (256 and 263 bytes) the reserved dot never matters. */
  lemma CallersDecodeExactly(data: seq<byte>, pos: nat, cap: nat, labels: seq<Label>, pointers: nat)
    requires cap >= 65 && Spells(data, pos, labels, pointers)
    ensures Decode(data, pos, cap).status == Ok <==>
            pointers <= 32 && |NameText(labels)| < cap
  {
    SpelledLabels(data, pos, labels, pointers);
    FitsMeans(labels, cap);
    DecodesSpelled(data, pos, cap, labels, pointers);
  }

  /** The reserved dot at work: the name "A" and its terminator fit two bytes, and are refused. */
  lemma ReservedDotRefuses()
    ensures var data: seq<byte> := [1, 65, 0];
      && Spells(data, 0, [[65]], 0) && |NameText([[65]])| < 2
      && Decode(data, 0, 2).status == Malformed
  {
    var data: seq<byte> := [1, 65, 0];
    assert data[1..2] == [65];
    assert StepAt(data, 0) == Literal([65], 2) && StepAt(data, 2) == End;
    assert Spells(data, 2, [], 0);
    assert [[65]][1..] == [];
  }

  predicate RootThrough(data: seq<byte>, pos: nat, pointers: nat) {
    pointers <= 32 && Spells(data, pos, [], pointers)
  }

  /** The names that a decoder with a one-byte buffer would accept, for which that buffer is too
      small, are the root reached through at most 32 pointers. */
  lemma OneByteAcceptsRoot(data: seq<byte>, pos: nat)
    ensures Decode(data, pos, 1).status == Ok <==> exists pointers: nat :: RootThrough(data, pos, pointers)
  {
    hide Decode, Spells;
    DecodesExactly(data, pos, 1);
    if pointers: nat :| RootThrough(data, pos, pointers) {
      assert Decodable(data, pos, [], pointers, 1);
    }
    if labels: seq<Label>, pointers: nat :| Decodable(data, pos, labels, pointers, 1) {
      assert labels == [];
      assert RootThrough(data, pos, pointers);
    }
  }

  lemma DecodesSpelled(data: seq<byte>, pos: nat, cap: nat, labels: seq<Label>, pointers: nat)
    requires Spells(data, pos, labels, pointers)
    ensures Decode(data, pos, cap).status == Ok <==> pointers <= MAX_JUMPS && FitsBehind(0, labels, cap)
  {
    var w := Decode(data, pos, cap);
    if w.status == Ok {
      WalkSound(data, pos, 0, cap, 0);
      SpellsUnique(data, pos, labels, pointers, w.labels, |w.path| - 1 - |w.labels|);
    }
    if pointers <= MAX_JUMPS && FitsBehind(0, labels, cap) {
      WalkComplete(data, pos, 0, cap, 0, labels, pointers);
    }
  }

  /** The verdict is that of the last position visited: Truncated exactly where bytes are missing,
      Ok exactly at a zero byte, Malformed at a reserved byte, at the pointer after the thirty-second
      and at a label that does not fit. */
  lemma {:induction false} VerdictByLastStep(data: seq<byte>, pos: nat, used: nat, cap: nat, jumps: nat)
    requires jumps <= MAX_JUMPS
    ensures EndsAs(data, WalkFrom(data, pos, used, cap, jumps), MAX_JUMPS - jumps)
    decreases MAX_JUMPS - jumps, |data| - pos
  {
    hide EndsAs, StepAt;
    var step, left := StepAt(data, pos), MAX_JUMPS - jumps;
    if step.Jump? && jumps < MAX_JUMPS {
      var rest := WalkFrom(data, step.target, used, cap, jumps + 1);
      VerdictByLastStep(data, step.target, used, cap, jumps + 1);
      EndsBehind(data, pos, [], rest, left - 1);
      assert [] + rest.labels == rest.labels;
    } else if step.Literal? && used + |step.lab| + 1 < cap {
      var rest := WalkFrom(data, step.next, Grown(used, step.lab), cap, jumps);
      VerdictByLastStep(data, step.next, Grown(used, step.lab), cap, jumps);
      EndsBehind(data, pos, [step.lab], rest, left);
    } else {
      EndsHere(data, pos, used, cap, jumps);
    }
  }

  lemma EndsHere(data: seq<byte>, pos: nat, used: nat, cap: nat, jumps: nat)
    requires jumps <= MAX_JUMPS && |WalkFrom(data, pos, used, cap, jumps).path| == 1
    ensures EndsAs(data, WalkFrom(data, pos, used, cap, jumps), MAX_JUMPS - jumps)
  {
  }

  predicate EndsAs(data: seq<byte>, w: Walk, pointersLeft: nat) {
    && w.path != []
    && var last := StepAt(data, w.path[|w.path| - 1]);
       && (w.status == Truncated <==> last.Short?)
       && (w.status == Ok <==> last.End?)
       && (w.status == Malformed && last.Jump? ==> |w.path| == 1 + |w.labels| + pointersLeft)
  }

  /** One more step, a pointer or a label, in front of a walk. */
  lemma EndsBehind(data: seq<byte>, pos: nat, lab: seq<Label>, rest: Walk, pointersLeft: nat)
    requires EndsAs(data, rest, pointersLeft) && |lab| <= 1
    ensures EndsAs(data, Walk(rest.status, lab + rest.labels, [pos] + rest.path), pointersLeft + 1 - |lab|)
  {
    assert ([pos] + rest.path)[|rest.path|] == rest.path[|rest.path| - 1];
  }

  // ----- Cycles and the cost of hostile names -----

  function Next(s: Step): Option<nat> {
    match s
    case Jump(target) => Some(target)
    case Literal(_, next) => Some(next)
    case _ => None
  }

  /** Following labels and pointers from `pos`, without any budget, stops after exactly `n` steps. */
  predicate Halts(data: seq<byte>, pos: nat, n: nat)
    decreases n
  {
    var next := Next(StepAt(data, pos));
    if n == 0 then next == None else next.Some? && Halts(data, next.value, n - 1)
  }

  lemma {:induction false} HaltsUnique(data: seq<byte>, pos: nat, m: nat, n: nat)
    requires Halts(data, pos, m) && Halts(data, pos, n)
    ensures m == n
    decreases m
  {
    if m > 0 && n > 0 {
      HaltsUnique(data, Next(StepAt(data, pos)).value, m - 1, n - 1);
    }
  }

  predicate AllHalt(data: seq<byte>, path: seq<nat>) {
    forall i :: 0 <= i < |path| ==> Halts(data, path[i], |path| - 1 - i)
  }

  lemma AllHaltBehind(data: seq<byte>, pos: nat, rest: seq<nat>)
    requires rest != [] && AllHalt(data, rest) && Next(StepAt(data, pos)) == Some(rest[0])
    ensures AllHalt(data, [pos] + rest)
  {
    assert Halts(data, pos, |rest|);
    forall i | 0 <= i < |rest| + 1
      ensures Halts(data, ([pos] + rest)[i], |rest| - i)
    {
      assert i > 0 ==> ([pos] + rest)[i] == rest[i - 1];
    }
  }

  lemma {:induction false} WalkHalts(data: seq<byte>, pos: nat, used: nat, cap: nat, jumps: nat)
    requires jumps <= MAX_JUMPS
    requires WalkFrom(data, pos, used, cap, jumps).status != Malformed
    ensures AllHalt(data, WalkFrom(data, pos, used, cap, jumps).path)
    decreases MAX_JUMPS - jumps, |data| - pos
  {
    match StepAt(data, pos)
    case Jump(target) =>
      WalkHalts(data, target, used, cap, jumps + 1);
      AllHaltBehind(data, pos, WalkFrom(data, target, used, cap, jumps + 1).path);
    case Literal(lab, next) =>
      WalkHalts(data, next, Grown(used, lab), cap, jumps);
      AllHaltBehind(data, pos, WalkFrom(data, next, Grown(used, lab), cap, jumps).path);
    case _ =>
  }

  /** A walk that comes back to a position is always answered Malformed: an accepted or a merely
      truncated name never visited a position twice. */
  lemma RevisitIsMalformed(data: seq<byte>, pos: nat, cap: nat, i: nat, k: nat)
    requires i < k < |Decode(data, pos, cap).path|
    requires Decode(data, pos, cap).path[i] == Decode(data, pos, cap).path[k]
    ensures Decode(data, pos, cap).status == Malformed
  {
    var w := Decode(data, pos, cap);
    if w.status != Malformed {
      WalkHalts(data, pos, 0, cap, 0);
      HaltsUnique(data, w.path[i], |w.path| - 1 - i, |w.path| - 1 - k);
    }
  }

  lemma {:induction false} WalkBound(data: seq<byte>, pos: nat, used: nat, cap: nat, jumps: nat)
    requires jumps <= MAX_JUMPS && used < cap
    ensures |WalkFrom(data, pos, used, cap, jumps).path| <=
            (if used == 0 then cap / 2 else (cap - 1 - used) / 2) + MAX_JUMPS + 1 - jumps
    decreases MAX_JUMPS - jumps, |data| - pos
  {
    match StepAt(data, pos)
    case Jump(target) =>
      if jumps < MAX_JUMPS {
        WalkBound(data, target, used, cap, jumps + 1);
      }
    case Literal(lab, next) =>
      if used + |lab| + 1 < cap {
        WalkBound(data, next, Grown(used, lab), cap, jumps);
      }
    case _ =>
  }

  /** The loop body runs at most `cap / 2 + 33` times, whatever the message. */
  lemma DecodeIsCheap(data: seq<byte>, pos: nat, cap: nat)
    requires cap > 0
    ensures |Decode(data, pos, cap).path| <= cap / 2 + 33
  {
    WalkBound(data, pos, 0, cap, 0);
  }

  // ----- More captured bytes -----

  /** Truncation is the only verdict on a name that more bytes of the same message can change. */
  lemma {:induction false} WalkStable(data: seq<byte>, longer: seq<byte>, pos: nat, used: nat, cap: nat, jumps: nat)
    requires jumps <= MAX_JUMPS && data <= longer
    requires WalkFrom(data, pos, used, cap, jumps).status != Truncated
    ensures WalkFrom(longer, pos, used, cap, jumps) == WalkFrom(data, pos, used, cap, jumps)
    decreases MAX_JUMPS - jumps, |data| - pos
  {
    assert StepAt(longer, pos) == StepAt(data, pos);
    match StepAt(data, pos)
    case Jump(target) =>
      if jumps < MAX_JUMPS {
        WalkStable(data, longer, target, used, cap, jumps + 1);
      }
    case Literal(lab, next) =>
      if used + |lab| + 1 < cap {
        WalkStable(data, longer, next, Grown(used, lab), cap, jumps);
      }
    case _ =>
  }

  /** The bytes written at `pos` are labels up to a zero byte or a pointer. */
  predicate Closed(data: seq<byte>, pos: nat)
    decreases |data| - pos
  {
    match StepAt(data, pos)
    case End => true
    case Jump(_) => true
    case Literal(_, next) => Closed(data, next)
    case _ => false
  }

  lemma {:induction false} AcceptedIsClosed(data: seq<byte>, pos: nat, used: nat, cap: nat, jumps: nat)
    requires jumps <= MAX_JUMPS && WalkFrom(data, pos, used, cap, jumps).status == Ok
    ensures Closed(data, pos) && pos < NameEnd(data, pos) <= |data|
    decreases |data| - pos
  {
    match StepAt(data, pos)
    case Literal(lab, next) => AcceptedIsClosed(data, next, Grown(used, lab), cap, jumps);
    case _ =>
  }

  /** Where a name ends is decided by the name's own bytes alone, wherever its pointers lead. */
  lemma {:induction false} NameEndIsLocal(data: seq<byte>, other: seq<byte>, pos: nat)
    requires Closed(data, pos) && NameEnd(data, pos) <= |other|
    requires forall i :: pos <= i < NameEnd(data, pos) && i < |data| ==> other[i] == data[i]
    ensures Closed(other, pos) && NameEnd(other, pos) == NameEnd(data, pos)
    decreases |data| - pos
  {
    match StepAt(data, pos)
    case Literal(lab, next) =>
      NameEndIsLocal(data, other, next);
    case _ =>
  }

  // ----- Compression -----

  /** The uncompressed wire form of a label list, without the zero byte. */
  function Wire(labels: seq<Label>): seq<byte>
    requires LegalLabels(labels)
  {
    if labels == [] then [] else [|labels[0]|] + labels[0] + Wire(labels[1..])
  }

  function Pointer(target: nat): seq<byte>
    requires target < 0x4000
  {
    [0xC0 + target / 0x100, target % 0x100]
  }

  lemma LiteralStep(data: seq<byte>, pos: nat, l: Label)
    requires 1 <= |l| <= 63 && WrittenAt(data, pos, [|l|] + l)
    ensures StepAt(data, pos) == Literal(l, pos + 1 + |l|)
  {
    WrittenInParts(data, pos, [|l|], l);
    assert data[pos + 0] == [|l|][0];
    assert data[pos + 1..pos + 1 + |l|] == l;
  }

  lemma FirstWritten(data: seq<byte>, pos: nat, labels: seq<Label>)
    requires labels != [] && LegalLabels(labels)
    requires WrittenAt(data, pos, Wire(labels))
    ensures var next := pos + 1 + |labels[0]|;
      && StepAt(data, pos) == Literal(labels[0], next)
      && WrittenAt(data, next, Wire(labels[1..]))
      && pos + |Wire(labels)| == next + |Wire(labels[1..])|
  {
    var l := labels[0];
    WrittenInParts(data, pos, [|l|] + l, Wire(labels[1..]));
    LiteralStep(data, pos, l);
  }

  lemma SpellsFirst(data: seq<byte>, pos: nat, first: Label, next: nat, rest: seq<Label>, pointers: nat)
    requires StepAt(data, pos) == Literal(first, next) && Spells(data, next, rest, pointers)
    ensures Spells(data, pos, [first] + rest, pointers)
  {
    assert ([first] + rest)[1..] == rest;
  }

  /** Labels written out in front of a name prefix its label list. */
  lemma {:induction false} SpellsBehind(data: seq<byte>, pos: nat, front: seq<Label>, labels: seq<Label>, pointers: nat)
    requires LegalLabels(front)
    requires WrittenAt(data, pos, Wire(front))
    requires Spells(data, pos + |Wire(front)|, labels, pointers)
    ensures Spells(data, pos, front + labels, pointers)
    decreases |front|
  {
    hide Spells, StepAt;
    if front == [] {
      assert front + labels == labels;
    } else {
      FirstWritten(data, pos, front);
      var next := pos + 1 + |front[0]|;
      SpellsBehind(data, next, front[1..], labels, pointers);
      SpellsFirst(data, pos, front[0], next, front[1..] + labels, pointers);
      assert front + labels == [front[0]] + (front[1..] + labels);
    }
  }

  /** Names within the limits of section 2.3.4 of RFC 1035: 63 bytes a label, 255 on the wire. */
  predicate Legal(labels: seq<Label>) {
    LegalLabels(labels) && |Wire(labels)| + 1 <= 255
  }

  lemma {:induction false} DottedLength(labels: seq<Label>)
    requires labels != [] && LegalLabels(labels)
    ensures |Dotted(labels)| + 1 == |Wire(labels)|
  {
    if |labels| > 1 {
      DottedLength(labels[1..]);
    }
  }

  /** Compression is transparent: a legal name written out in one message, and the same name in
      another message with its tail replaced by a pointer to a copy of that tail (which may itself
      be compressed), decode to the same text. */
  lemma CompressionIsTransparent(plain: seq<byte>, p: nat, packed: seq<byte>, q: nat,
                                 front: seq<Label>, tail: seq<Label>, target: nat, pointers: nat,
                                 cap: nat)
    requires Legal(front + tail) && cap >= 256
    requires target < 0x4000 && LegalLabels(front)
    requires WrittenAt(plain, p, Wire(front + tail) + [0])
    requires WrittenAt(packed, q, Wire(front) + Pointer(target))
    requires Spells(packed, target, tail, pointers) && pointers < 32
    ensures Decode(plain, p, cap).status == Decode(packed, q, cap).status == Ok
    ensures Decode(plain, p, cap).labels == Decode(packed, q, cap).labels == front + tail
  {
    hide WalkFrom, Spells, Wire, StepAt;
    var name := front + tail;
    SpellsPlain(plain, p, name);
    SpellsPacked(packed, q, front, tail, target, pointers);
    LegalFits(name, cap);
    WalkComplete(plain, p, 0, cap, 0, name, 0);
    WalkComplete(packed, q, 0, cap, 0, name, pointers + 1);
  }

  /** A pointer behind written-out labels continues the name at its target. */
  lemma SpellsPacked(data: seq<byte>, pos: nat, front: seq<Label>, tail: seq<Label>, target: nat, pointers: nat)
    requires target < 0x4000 && LegalLabels(front)
    requires WrittenAt(data, pos, Wire(front) + Pointer(target))
    requires Spells(data, target, tail, pointers)
    ensures Spells(data, pos, front + tail, pointers + 1)
  {
    WrittenInParts(data, pos, Wire(front), Pointer(target));
    PointerStep(data, pos + |Wire(front)|, target);
    SpellsBehind(data, pos, front, tail, pointers + 1);
  }

  lemma LegalFits(labels: seq<Label>, cap: nat)
    requires Legal(labels) && cap > MAX_NAME
    ensures FitsBehind(0, labels, cap)
  {
    FitsMeans(labels, cap);
    if labels != [] {
      DottedLength(labels);
    }
  }

  lemma SpellsPlain(data: seq<byte>, pos: nat, labels: seq<Label>)
    requires LegalLabels(labels)
    requires WrittenAt(data, pos, Wire(labels) + [0])
    ensures Spells(data, pos, labels, 0)
  {
    WrittenInParts(data, pos, Wire(labels), [0]);
    assert data[pos + |Wire(labels)| + 0] == [0][0];
    SpellsBehind(data, pos, labels, [], 0);
    assert labels + [] == labels;
  }

  lemma PointerStep(data: seq<byte>, pos: nat, target: nat)
    requires target < 0x4000 && WrittenAt(data, pos, Pointer(target))
    ensures StepAt(data, pos) == Jump(target)
  {
    assert data[pos + 0] == Pointer(target)[0] && data[pos + 1] == Pointer(target)[1];
  }
}
