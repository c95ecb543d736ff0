/** Domain names with compression pointers: `ns_dns_decode_name` of src/protocols/dns.c against
    section 4.1.4 of RFC 1035. */
module DnsName {
  import opened Bytes

  const MAX_JUMPS := 32
  const MAX_NAME := 255

  type Label = seq<byte>

  // ----- What is written at one position -----

  datatype Step =
    | Short                            // the bytes needed here were not captured
    | Reserved                         // top bits 01 or 10
    | End                              // the zero byte
    | Jump(target: nat)                // a compression pointer
    | Literal(lab: Label, next: nat) // a label and the position after it

  function StepAt(data: seq<byte>, pos: nat): (s: Step)
    ensures s.Literal? ==> 1 <= |s.lab| <= 63 && s.next == pos + 1 + |s.lab| <= |data|
    ensures s.Jump? ==> pos + 2 <= |data| && s.target < 0x4000
    ensures s.End? ==> pos + 1 <= |data|
  {
    if !InBounds(|data|, pos, 1) then Short
    else if data[pos] >= 0xC0 then
      if InBounds(|data|, pos, 2) then Jump(U16(data, pos) % 0x4000) else Short
    else if data[pos] >= 0x40 then Reserved
    else if data[pos] == 0 then End
    else if InBounds(|data|, pos + 1, data[pos]) then
      Literal(data[pos + 1..pos + 1 + data[pos]], pos + 1 + data[pos])
    else Short
  }

  // ----- The standard's reading: no buffer, no budget -----

  /** The name written at `pos` consists of `labels` and is reached through exactly `jumps` pointers.
      A pointer is followed wherever it leads: the standard speaks of a prior occurrence, and the
      program does not insist on it. */
  predicate Spells(data: seq<byte>, pos: nat, labels: seq<Label>, jumps: nat)
    decreases |labels| + jumps
  {
    match StepAt(data, pos)
    case End => labels == [] && jumps == 0
    case Jump(target) => jumps > 0 && Spells(data, target, labels, jumps - 1)
    case Literal(lab, next) =>
      labels != [] && labels[0] == lab && Spells(data, next, labels[1..], jumps)
    case _ => false
  }

  function Dotted(labels: seq<Label>): string {
    if labels == [] then ""
    else if |labels| == 1 then Chars(labels[0])
    else Chars(labels[0]) + "." + Dotted(labels[1..])
  }

  function NameText(labels: seq<Label>): string {
    if labels == [] then "." else Dotted(labels)
  }

  /** The position after the name as written at `pos`: past its zero byte or its first pointer. */
  function NameEnd(data: seq<byte>, pos: nat): (end: nat)
    ensures end >= pos
    decreases |data| - pos
  {
    match StepAt(data, pos)
    case End => pos + 1
    case Jump(_) => pos + 2
    case Literal(_, next) => NameEnd(data, next)
    case _ => pos
  }

  // ----- The walk the decoder makes -----

  /** A finished walk: its verdict, the labels read, and every position the loop body ran at. */
  datatype Walk = Walk(status: Status, labels: seq<Label>, path: seq<nat>)

  function Grown(used: nat, lab: Label): nat {
    if used == 0 then |lab| else used + 1 + |lab|
  }

  function WalkFrom(data: seq<byte>, pos: nat, used: nat, cap: nat, jumps: nat): (w: Walk)
    requires jumps <= MAX_JUMPS
    ensures |w.path| >= 1 && w.path[0] == pos
    ensures w.status != Unsupported
    decreases MAX_JUMPS - jumps, |data| - pos
  {
    match StepAt(data, pos)
    case Short => Walk(Truncated, [], [pos])
    case Reserved => Walk(Malformed, [], [pos])
    case End => Walk(Ok, [], [pos])
    case Jump(target) =>
      if jumps == MAX_JUMPS then Walk(Malformed, [], [pos])
      else
        var w := WalkFrom(data, target, used, cap, jumps + 1);
        Walk(w.status, w.labels, [pos] + w.path)
    case Literal(lab, next) =>
      if used + |lab| + 1 >= cap then Walk(Malformed, [], [pos])
      else
        var w := WalkFrom(data, next, Grown(used, lab), cap, jumps);
        Walk(w.status, [lab] + w.labels, [pos] + w.path)
  }

  /** The walk of a call of the decoder with a `cap`-byte output buffer. */
  function Decode(data: seq<byte>, pos: nat, cap: nat): Walk {
    WalkFrom(data, pos, 0, cap, 0)
  }

  // ----- The decoder itself -----

  lemma {:induction false} DottedSnoc(labels: seq<Label>, lab: Label)
    ensures Dotted(labels + [lab]) ==
            if labels == [] then Chars(lab) else Dotted(labels) + "." + Chars(lab)
  {
    if labels == [] {
    } else {
      assert (labels + [lab])[1..] == labels[1..] + [lab];
      DottedSnoc(labels[1..], lab);
      if |labels| > 1 {
        assert Dotted(labels + [lab]) ==
               Chars(labels[0]) + "." + (Dotted(labels[1..]) + "." + Chars(lab));
      }
    }
  }

  /** `whole` read `labels` at the positions of `path` and then went on as `rest`. */
  ghost predicate Resumes(whole: Walk, labels: seq<Label>, path: seq<nat>, rest: Walk) {
    whole == Walk(rest.status, labels + rest.labels, path + rest.path)
  }

  /** One iteration of the decoder keeps its place in the walk, or is the walk's last. */
  lemma ResumeStep(whole: Walk, labels: seq<Label>, path: seq<nat>,
                   data: seq<byte>, pos: nat, used: nat, cap: nat, jumps: nat)
    requires jumps <= MAX_JUMPS
    requires Resumes(whole, labels, path, WalkFrom(data, pos, used, cap, jumps))
    ensures match StepAt(data, pos)
      case Short => whole == Walk(Truncated, labels, path + [pos])
      case Reserved => whole == Walk(Malformed, labels, path + [pos])
      case End => whole == Walk(Ok, labels, path + [pos])
      case Jump(target) =>
        if jumps == MAX_JUMPS then whole == Walk(Malformed, labels, path + [pos])
        else Resumes(whole, labels, path + [pos], WalkFrom(data, target, used, cap, jumps + 1))
      case Literal(lab, next) =>
        if used + |lab| + 1 >= cap then whole == Walk(Malformed, labels, path + [pos])
        else Resumes(whole, labels + [lab], path + [pos],
                     WalkFrom(data, next, Grown(used, lab), cap, jumps))
  {
    var rest := WalkFrom(data, pos, used, cap, jumps);
    assert path + rest.path == path + [pos] + rest.path[1..];
    if rest.labels != [] {
      assert labels + rest.labels == labels + [rest.labels[0]] + rest.labels[1..];
    }
  }

  /** Writes the separating dot, if any, and the label behind the text of `labels`. */
  method AppendLabel(out: array<char>, n: nat, lab: Label, ghost labels: seq<Label>) returns (m: nat)
    requires n + |lab| + 1 < out.Length && lab != []
    requires out[..n] == Dotted(labels) && (n == 0 <==> labels == [])
    modifies out
    ensures m == Grown(n, lab) && m < out.Length
    ensures out[..m] == Dotted(labels + [lab])
  {
    DottedSnoc(labels, lab);
    m := n;
    if m != 0 {
      m := Put(out, m, ".");
    }
    m := Put(out, m, Chars(lab));
  }

  /** Spells the root as a dot and closes the C string. */
  method Terminate(out: array<char>, n: nat, ghost labels: seq<Label>) returns (m: nat)
    requires n < out.Length && out.Length >= 2
    requires out[..n] == Dotted(labels) && (n == 0 <==> labels == [])
    modifies out
    ensures m < out.Length && out[..m] == NameText(labels) && out[m] == '\0'
  {
    m := n;
    if m == 0 {
      m := Put(out, 0, ".");
    }
    out[m] := '\0';
  }

  /** The reads at one position, in the decoder's order: the length byte and its two top bits, then
      a pointer's second byte or the bounds of a label. */
  method ReadStep(data: seq<byte>, pos: nat) returns (step: Step)
    ensures step == StepAt(data, pos)
  {
    if !InBounds(|data|, pos, 1) {
      return Short;
    }
    var lenByte := data[pos];
    if lenByte / 64 == 3 {
      if !InBounds(|data|, pos, 2) {
        return Short;
      }
      return Jump(U16(data, pos) % 0x4000);
    }
    if lenByte / 64 != 0 {
      return Reserved;
    }
    if lenByte == 0 {
      return End;
    }
    var start := pos + 1;
    if !InBounds(|data|, start, lenByte) {
      return Short;
    }
    return Literal(data[start..start + lenByte], start + lenByte);
  }

  /** `ns_dns_decode_name`. The one thing it cannot do is to accept a name into a one-byte buffer:
      that name is the root, whose dot and terminator need two bytes. */
  method DecodeName(data: seq<byte>, offset: nat, out: array<char>)
      returns (status: Status, n: nat, end: nat, ghost path: seq<nat>)
    requires out.Length == 1 ==> Decode(data, offset, 1).status != Ok
    modifies out
    ensures out.Length == 0 ==> status == Malformed
    ensures out.Length > 0 ==>
      var w := Decode(data, offset, out.Length);
      && status == w.status
      && path == w.path
      && (status == Ok ==>
            && n < out.Length
            && out[..n] == NameText(w.labels)
            && out[n] == '\0'
            && end == NameEnd(data, offset))
  {
    hide WalkFrom, StepAt, NameText;
    status, n, end, path := Malformed, 0, 0, [];
    if out.Length == 0 {
      return;
    }
    var pos: nat, jumps: nat, endSet := offset, 0, false;
    ghost var labels: seq<Label> := [];
    ghost var whole := Decode(data, offset, out.Length);
    while true
      invariant jumps <= MAX_JUMPS && n < out.Length
      invariant n == 0 <==> labels == []
      invariant out[..n] == Dotted(labels)
      invariant if endSet then end == NameEnd(data, offset)
                else NameEnd(data, pos) == NameEnd(data, offset)
      invariant Resumes(whole, labels, path, WalkFrom(data, pos, n, out.Length, jumps))
      decreases MAX_JUMPS - jumps, |data| - pos
    {
      ResumeStep(whole, labels, path, data, pos, n, out.Length, jumps);
      path := path + [pos];
      var step := ReadStep(data, pos);
      match step
      case Short =>
        status := Truncated;
        return;
      case Reserved =>
        return;
      case End =>
        if !endSet {
          end := pos + 1;
        }
        break;
      case Jump(target) =>
        if !endSet {
          end, endSet := pos + 2, true;
        }
        jumps := jumps + 1;
        if jumps > MAX_JUMPS {
          return;
        }
        pos := target;
      case Literal(lab, next) =>
        if n + |lab| + 1 >= out.Length {
          return;
        }
        n := AppendLabel(out, n, lab, labels);
        labels, pos := labels + [lab], next;
    }
    n := Terminate(out, n, labels);
    status := Ok;
  }
}
