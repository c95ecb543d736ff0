/** The hex dump of src/util.c, with the reader that inverts it. The source writes sixteen bytes a
    line; `width` is that number, and everything here holds for every width from 1 to 16. */
module HexDump {
  import opened Bytes
  import opened Numerals

  const LINE_BUFFER := 128

  /** The largest length at which the source's 64-bit offset does not wrap around. */
  const MAX_LENGTH := 0xFFFF_FFFF_FFFF_FFF0

  // ----- The text of a dump -----

  function Cell(chunk: seq<byte>, i: nat): string {
    (if i < |chunk| then Padded(chunk[i], 16, 2) + " " else "   ") + (if i == 7 then " " else "")
  }

  /** The first `n` columns. */
  function Columns(chunk: seq<byte>, n: nat): string {
    if n == 0 then "" else Columns(chunk, n - 1) + Cell(chunk, n - 1)
  }

  function Printable(b: byte): char {
    if 0x20 <= b < 0x7f then b as char else '.'
  }

  function Gutter(chunk: seq<byte>): (s: string)
    ensures |s| == |chunk|
  {
    seq(|chunk|, i requires 0 <= i < |chunk| => Printable(chunk[i]))
  }

  /** A line behind its offset. */
  function LineTail(chunk: seq<byte>, width: nat): string {
    "  " + (Columns(chunk, width) + (" " + Gutter(chunk) + "\n"))
  }

  function Line(offset: nat, chunk: seq<byte>, width: nat): string {
    Padded(offset, 16, 4) + LineTail(chunk, width)
  }

  function Chunk(data: seq<byte>, offset: nat, width: nat): (c: seq<byte>)
    requires offset < |data| && width > 0
    ensures 1 <= |c| <= width
  {
    data[offset..offset + Min(width, |data| - offset)]
  }

  type Renderer = (nat, seq<byte>) -> string

  function Render(width: nat): Renderer {
    (offset: nat, chunk: seq<byte>) => Line(offset, chunk, width)
  }

  /** The lines from `offset` on, each chunk rendered with its offset. */
  function Lines(data: seq<byte>, offset: nat, width: nat, render: Renderer): seq<string>
    requires width > 0
    decreases |data| - offset
  {
    if offset >= |data| then []
    else [render(offset, Chunk(data, offset, width))] + Lines(data, offset + width, width, render)
  }

  function DumpText(data: seq<byte>, width: nat): seq<string>
    requires width > 0
  {
    Lines(data, 0, width, Render(width))
  }

  // ----- The reader -----

  /** Where column `i` starts, counted from the first. */
  function ColumnAt(i: nat): nat {
    3 * i + if i > 7 then 1 else 0
  }

  function ReadColumns(s: string, i: nat, width: nat): seq<byte>
    decreases width - i
  {
    var p := ColumnAt(i);
    if i >= width || p + 2 > |s| || !AllDigits(s[p..p + 2], 16) || Value(s[p..p + 2], 16) > 255 then []
    else [Value(s[p..p + 2], 16)] + ReadColumns(s, i + 1, width)
  }

  /** The position of the first blank. */
  function FirstBlank(s: string): (n: nat)
    ensures n <= |s|
  {
    if s == "" || s[0] == ' ' then 0 else 1 + FirstBlank(s[1..])
  }

  function ReadLine(line: string, width: nat): seq<byte> {
    var n := FirstBlank(line);
    if n + 2 <= |line| then ReadColumns(line[n + 2..], 0, width) else []
  }

  function ReadDump(lines: seq<string>, width: nat): seq<byte> {
    if lines == [] then [] else ReadLine(lines[0], width) + ReadDump(lines[1..], width)
  }

  // ----- Round trip -----

  lemma CellLength(chunk: seq<byte>, i: nat)
    ensures |Cell(chunk, i)| == ColumnAt(i + 1) - ColumnAt(i)
  {
    if i < |chunk| {
      assert Power(16, 2) == 256;
      PaddedLength(chunk[i], 16, 2);
    }
  }

  lemma {:induction false} ColumnsLength(chunk: seq<byte>, n: nat)
    ensures |Columns(chunk, n)| == ColumnAt(n)
  {
    if n > 0 {
      ColumnsLength(chunk, n - 1);
      CellLength(chunk, n - 1);
    }
  }

  lemma {:induction false} ColumnShows(chunk: seq<byte>, n: nat, i: nat)
    requires i < n
    ensures ColumnAt(i) + 2 <= |Columns(chunk, n)|
    ensures Columns(chunk, n)[ColumnAt(i)..ColumnAt(i) + 2] ==
            if i < |chunk| then Padded(chunk[i], 16, 2) else "  "
  {
    hide Cell, Padded;
    ColumnsLength(chunk, n - 1);
    var p, front := ColumnAt(i), Columns(chunk, n - 1);
    if i < n - 1 {
      ColumnShows(chunk, n - 1, i);
      assert Columns(chunk, n)[p..p + 2] == front[p..p + 2];
    } else {
      CellShows(chunk, i);
      assert Columns(chunk, n)[p..p + 2] == Cell(chunk, i)[..2];
    }
  }

  lemma CellShows(chunk: seq<byte>, i: nat)
    ensures |Cell(chunk, i)| >= 3
    ensures Cell(chunk, i)[..2] == if i < |chunk| then Padded(chunk[i], 16, 2) else "  "
  {
    if i < |chunk| {
      assert Power(16, 2) == 256;
      PaddedLength(chunk[i], 16, 2);
    }
  }

  lemma {:induction false} ReadColumnsBack(chunk: seq<byte>, tail: string, i: nat, width: nat)
    requires i <= |chunk| <= width
    ensures ReadColumns(Columns(chunk, width) + tail, i, width) == chunk[i..]
    decreases width - i
  {
    hide Columns, Padded;
    if i < width {
      var s, p := Columns(chunk, width) + tail, ColumnAt(i);
      ColumnShows(chunk, width, i);
      assert s[p..p + 2] == Columns(chunk, width)[p..p + 2];
      if i < |chunk| {
        ReadPadded(chunk[i], 16, 2);
        ReadColumnsBack(chunk, tail, i + 1, width);
        assert chunk[i..] == [chunk[i]] + chunk[i + 1..];
      } else {
        assert s[p..p + 2][0] == ' ';
      }
    }
  }

  lemma {:induction false} FirstBlankBehind(front: string, tail: string)
    requires forall i :: 0 <= i < |front| ==> front[i] != ' '
    requires tail != "" && tail[0] == ' '
    ensures FirstBlank(front + tail) == |front|
  {
    if front == "" {
      assert front + tail == tail;
    } else {
      assert (front + tail)[1..] == front[1..] + tail;
      FirstBlankBehind(front[1..], tail);
    }
  }

  lemma ReadLineOf(front: string, columns: string, rest: string, width: nat)
    requires forall i :: 0 <= i < |front| ==> front[i] != ' '
    ensures ReadLine(front + ("  " + (columns + rest)), width) == ReadColumns(columns + rest, 0, width)
  {
    var tail := "  " + (columns + rest);
    FirstBlankBehind(front, tail);
    assert (front + tail)[|front| + 2..] == tail[2..] == columns + rest;
  }

  lemma ReadLineBack(offset: nat, chunk: seq<byte>, width: nat)
    requires |chunk| <= width
    ensures ReadLine(Line(offset, chunk, width), width) == chunk
  {
    var rest := " " + Gutter(chunk) + "\n";
    ReadLineOf(Padded(offset, 16, 4), Columns(chunk, width), rest, width);
    ReadColumnsBack(chunk, rest, 0, width);
  }

  lemma {:induction false} DumpFrom(data: seq<byte>, offset: nat, width: nat, render: Renderer)
    requires width > 0 && offset <= |data|
    requires forall o: nat, c: seq<byte> :: |c| <= width ==> ReadLine(render(o, c), width) == c
    ensures ReadDump(Lines(data, offset, width, render), width) == data[offset..]
    decreases |data| - offset
  {
    hide ReadLine;
    if offset < |data| {
      var chunk, next := Chunk(data, offset, width), offset + width;
      var rest := Lines(data, next, width, render);
      DumpStep(render(offset, chunk), rest, width);
      if next <= |data| {
        DumpFrom(data, next, width, render);
        assert data[offset..] == chunk + data[next..];
      } else {
        assert data[offset..] == chunk + [];
      }
    }
  }

  lemma {:induction false} LineCount(data: seq<byte>, offset: nat, render: Renderer)
    ensures |Lines(data, offset, 16, render)| == if offset >= |data| then 0 else (|data| - offset + 15) / 16
    decreases |data| - offset
  {
    if offset < |data| {
      LineCount(data, offset + 16, render);
    }
  }

  lemma DumpStep(line: string, rest: seq<string>, width: nat)
    ensures ReadDump([line] + rest, width) == ReadLine(line, width) + ReadDump(rest, width)
  {
    assert ([line] + rest)[1..] == rest;
  }

  /** Every byte sequence reads back from its dump, whatever the line width; a sixteen-byte dump has
      one line per sixteen bytes begun. */
  lemma DumpRoundTrip(data: seq<byte>, width: nat)
    requires width > 0
    ensures ReadDump(DumpText(data, width), width) == data
    ensures |DumpText(data, 16)| == (|data| + 15) / 16
  {
    forall o: nat, c: seq<byte> | |c| <= width
      ensures ReadLine(Render(width)(o, c), width) == c
    {
      ReadLineBack(o, c, width);
    }
    DumpFrom(data, 0, width, Render(width));
    LineCount(data, 0, Render(16));
    assert data[0..] == data;
  }

  // ----- What a line shows -----

  /** The places in a line of sixteen columns, given the length of its offset. */
  function HexAt(n: nat, i: nat): nat {
    n + 2 + 3 * i + if i > 7 then 1 else 0
  }

  function TextAt(n: nat): nat {
    n + 52
  }

  /** A line shows its offset in hexadecimal, of at least four digits; two digits for each byte; and at
      the end each byte once more, as its character if it is printable and as a dot if not. */
  ghost predicate LineShows(line: string, offset: nat, chunk: seq<byte>) {
    |chunk| <= 16 &&
    exists n: nat ::
      && n >= 4 && |line| == TextAt(n) + |chunk| + 1 && line[|line| - 1] == '\n' && line[n] == ' '
      && AllDigits(line[..n], 16) && Value(line[..n], 16) == offset && (n > 4 ==> line[0] != '0')
      && (forall i :: 0 <= i < |chunk| ==> HexShows(line[HexAt(n, i)..HexAt(n, i) + 2], chunk[i]))
      && (forall i :: 0 <= i < |chunk| ==> CharShows(line[TextAt(n) + i], chunk[i]))
  }

  predicate HexShows(s: string, b: byte) {
    AllDigits(s, 16) && Value(s, 16) == b
  }

  predicate CharShows(c: char, b: byte) {
    c == if 0x20 <= b <= 0x7e then b as char else '.'
  }

  lemma LineLayout(front: string, columns: string, gutter: string)
    requires |columns| == 49
    ensures var line, n := front + ("  " + (columns + (" " + gutter + "\n"))), |front|;
      && |line| == TextAt(n) + |gutter| + 1 && line[|line| - 1] == '\n'
      && line[..n] == front && line[n] == ' '
      && line[n + 2..n + 51] == columns && line[TextAt(n)..TextAt(n) + |gutter|] == gutter
  {
  }

  lemma EveryLineShows(offset: nat, chunk: seq<byte>)
    requires |chunk| <= 16
    ensures LineShows(Line(offset, chunk, 16), offset, chunk)
  {
    hide Columns, Gutter, Padded, Value, AllDigits;
    var front, columns, gutter := Padded(offset, 16, 4), Columns(chunk, 16), Gutter(chunk);
    var line, n := Line(offset, chunk, 16), |front|;
    ColumnsLength(chunk, 16);
    LineLayout(front, columns, gutter);
    ReadPadded(offset, 16, 4);
    PaddedOffset(offset);
    forall i | 0 <= i < |chunk|
      ensures HexShows(line[HexAt(n, i)..HexAt(n, i) + 2], chunk[i])
      ensures CharShows(line[TextAt(n) + i], chunk[i])
    {
      ColumnShows(chunk, 16, i);
      ReadPadded(chunk[i], 16, 2);
      assert line[HexAt(n, i)..HexAt(n, i) + 2] == columns[ColumnAt(i)..ColumnAt(i) + 2];
      GutterShows(chunk, i);
      assert line[TextAt(n) + i] == gutter[i];
    }
  }

  lemma PaddedOffset(offset: nat)
    ensures |Padded(offset, 16, 4)| > 4 ==> Padded(offset, 16, 4)[0] != '0'
  {
    NoLeadingZero(offset, 16);
    assert |Digits(offset, 16)| > 4 ==> Padded(offset, 16, 4) == Digits(offset, 16);
  }

  lemma GutterShows(chunk: seq<byte>, i: nat)
    requires i < |chunk|
    ensures CharShows(Gutter(chunk)[i], chunk[i])
  {
  }

  lemma {:induction false} LineAt(data: seq<byte>, offset: nat, k: nat, render: Renderer)
    requires offset + 16 * k < |data|
    ensures k < |Lines(data, offset, 16, render)|
    ensures Lines(data, offset, 16, render)[k] == render(offset + 16 * k, Chunk(data, offset + 16 * k, 16))
    decreases k
  {
    if k > 0 {
      LineAt(data, offset + 16, k - 1, render);
    }
  }

  /** The k-th line of a dump shows the offset 16 * k and the sixteen bytes there, or what is left. */
  lemma DumpShows(data: seq<byte>, k: nat)
    requires 16 * k < |data|
    ensures k < |DumpText(data, 16)|
    ensures LineShows(DumpText(data, 16)[k], 16 * k, data[16 * k..Min(16 * k + 16, |data|)])
  {
    hide Lines, LineShows;
    LineAt(data, 0, k, Render(16));
    EveryLineShows(16 * k, Chunk(data, 16 * k, 16));
  }

  // ----- The dumper -----

  /** `append_line`: as much of the text as fits in front of a terminator. */
  method AppendLine(buf: array<char>, pos: nat, text: string) returns (end: nat)
    modifies buf
    ensures end == if pos >= buf.Length then pos else pos + Min(|text|, buf.Length - pos - 1)
    ensures pos <= buf.Length ==> end <= buf.Length && buf[..end] == old(buf[..pos]) + text[..end - pos]
  {
    end := pos;
    if pos >= buf.Length || text == "" {
      return;
    }
    end := Put(buf, pos, text[..Min(|text|, buf.Length - pos - 1)]);
    buf[end] := '\0';
  }

  /** One line, built in the 128-byte buffer without ever meeting its end. */
  method WriteLine(offset: nat, chunk: seq<byte>, width: nat, line: array<char>) returns (pos: nat)
    requires line.Length == LINE_BUFFER && 1 <= |chunk| <= width <= 16 && offset <= MAX_LENGTH
    modifies line
    ensures pos < line.Length && line[..pos] == Line(offset, chunk, width) && line[pos] == '\0'
  {
    hide Columns, Gutter, Padded, Line;
    pos := WriteColumns(offset, chunk, width, line);
    pos := AppendLine(line, pos, " ");
    pos := WriteGutter(chunk, line, pos);
    if pos + 1 < line.Length {
      line[pos] := '\n';
      pos := pos + 1;
    }
    line[pos] := '\0';
    LineInParts(offset, chunk, width);
  }

  lemma LineInParts(offset: nat, chunk: seq<byte>, width: nat)
    ensures Line(offset, chunk, width) ==
            Padded(offset, 16, 4) + "  " + Columns(chunk, width) + " " + Gutter(chunk) + "\n"
  {
  }

  lemma ColumnsStep(front: string, chunk: seq<byte>, i: nat)
    ensures front + Columns(chunk, i + 1) == front + Columns(chunk, i) + Cell(chunk, i)
  {
  }

  method WriteColumns(offset: nat, chunk: seq<byte>, width: nat, line: array<char>) returns (pos: nat)
    requires line.Length == LINE_BUFFER && width <= 16 && offset <= MAX_LENGTH
    modifies line
    ensures pos <= 67 && line[..pos] == Padded(offset, 16, 4) + "  " + Columns(chunk, width)
  {
    OffsetLength(offset);
    var front := Padded(offset, 16, 4) + "  ";
    pos := AppendLine(line, 0, front);
    assert front == front + Columns(chunk, 0);
    for i := 0 to width
      invariant pos == |front| + ColumnAt(i) && line[..pos] == front + Columns(chunk, i)
    {
      CellLength(chunk, i);
      pos := WriteCell(chunk, i, line, pos);
      ColumnsStep(front, chunk, i);
    }
  }

  lemma OffsetLength(offset: nat)
    requires offset <= MAX_LENGTH
    ensures |Padded(offset, 16, 4)| <= 16
  {
    assert Power(16, 4) == 0x1_0000;
    assert Power(16, 8) == 0x1_0000_0000;
    assert Power(16, 12) == 0x1_0000_0000_0000;
    assert Power(16, 16) == 0x1_0000_0000_0000_0000;
    DigitsLength(offset, 16, 16);
  }

  method WriteCell(chunk: seq<byte>, i: nat, line: array<char>, pos: nat) returns (end: nat)
    requires pos + |Cell(chunk, i)| < line.Length
    modifies line
    ensures end == pos + |Cell(chunk, i)| && line[..end] == old(line[..pos]) + Cell(chunk, i)
  {
    if i < |chunk| {
      end := AppendLine(line, pos, Padded(chunk[i], 16, 2) + " ");
    } else {
      end := AppendLine(line, pos, "   ");
    }
    if i == 7 {
      end := AppendLine(line, end, " ");
    }
  }

  method WriteGutter(chunk: seq<byte>, line: array<char>, pos: nat) returns (end: nat)
    requires pos + |chunk| + 1 < line.Length
    modifies line
    ensures end == pos + |chunk| && line[..end] == old(line[..pos]) + Gutter(chunk)
  {
    end := pos;
    var i := 0;
    while i < |chunk| && end + 1 < line.Length
      invariant i <= |chunk| && end == pos + i
      invariant line[..end] == old(line[..pos]) + Gutter(chunk)[..i]
    {
      line[end] := Printable(chunk[i]);
      end := end + 1;
      i := i + 1;
      assert line[..end] == line[..end - 1] + [Printable(chunk[i - 1])];
    }
  }

  /** The C string that the k-th call of the sink receives. */
  method NextLine(data: seq<byte>, offset: nat, width: nat, line: array<char>) returns (text: string)
    requires line.Length == LINE_BUFFER && offset < |data| <= MAX_LENGTH && 1 <= width <= 16
    modifies line
    ensures Lines(data, offset, width, Render(width)) == [text] + Lines(data, offset + width, width, Render(width))
  {
    var n := WriteLine(offset, Chunk(data, offset, width), width, line);
    text := line[..n];
  }

  /** What a sink that answers `accepts` is sent of `all`: everything up to its first refusal. */
  function Sent(all: seq<string>, from: nat, accepts: (nat, string) -> bool): seq<string>
    requires from <= |all|
    decreases |all| - from
  {
    if from == |all| then []
    else if accepts(from, all[from]) then [all[from]] + Sent(all, from + 1, accepts)
    else [all[from]]
  }

  lemma FirstOf(all: seq<string>, from: nat, to: nat)
    requires from < to <= |all|
    ensures all[from..to] == [all[from]] + all[from + 1..to]
  {
  }

  /** A sink that first refuses line `k` is sent the lines up to and with it; one that refuses none is
      sent all. */
  lemma {:induction false} SentExactly(all: seq<string>, from: nat, k: nat, accepts: (nat, string) -> bool)
    requires from <= k <= |all| && forall i :: from <= i < k ==> accepts(i, all[i])
    ensures k == |all| ==> Sent(all, from, accepts) == all[from..]
    ensures k < |all| && !accepts(k, all[k]) ==> Sent(all, from, accepts) == all[from..k + 1]
    decreases k - from
  {
    if from < k {
      SentExactly(all, from + 1, k, accepts);
      FirstOf(all, from, |all|);
      if k < |all| {
        FirstOf(all, from, k + 1);
      }
    }
  }

  predicate AcceptsAll(all: seq<string>, accepts: (nat, string) -> bool) {
    forall k :: 0 <= k < |all| ==> accepts(k, all[k])
  }

  /** `lines` were sent and accepted, `rest` is still to come. */
  ghost predicate Underway(all: seq<string>, lines: seq<string>, rest: seq<string>, accepts: (nat, string) -> bool) {
    && all == lines + rest
    && Sent(all, 0, accepts) == lines + Sent(all, |lines|, accepts)
    && AcceptsAll(lines, accepts)
  }

  lemma SendBounds(all: seq<string>, lines: seq<string>, accepts: (nat, string) -> bool)
    ensures Underway(all, [], all, accepts)
    ensures Underway(all, lines, [], accepts) ==> Sent(all, 0, accepts) == lines && AcceptsAll(all, accepts)
  {
    assert all == [] + all && lines + [] == lines;
    assert Sent(all, 0, accepts) == [] + Sent(all, 0, accepts);
  }

  lemma SendNext(all: seq<string>, lines: seq<string>, text: string, rest: seq<string>, accepts: (nat, string) -> bool)
    requires Underway(all, lines, [text] + rest, accepts)
    ensures accepts(|lines|, text) ==> Underway(all, lines + [text], rest, accepts)
    ensures !accepts(|lines|, text) ==> Sent(all, 0, accepts) == lines + [text] && !AcceptsAll(all, accepts)
  {
    var n := |lines|;
    assert all == lines + [text] + rest;
    assert all[n] == text;
    if accepts(n, text) {
      assert lines + ([text] + Sent(all, n + 1, accepts)) == lines + [text] + Sent(all, n + 1, accepts);
    }
  }

  const SIZE_LIMIT := 0x1_0000_0000_0000_0000

  /** The source's 64-bit offset after `k` lines. */
  function OffsetAfter(k: nat): nat {
    16 * k % SIZE_LIMIT
  }

  /** The offset of `ns_hex_dump` ever reaches the length, which ends its loop, exactly for lengths of
      at most 2^64 - 16: beyond that it wraps around to zero first. */
  lemma DumpEndsExactly(length: nat)
    requires length < SIZE_LIMIT
    ensures (exists k: nat :: OffsetAfter(k) >= length) <==> length <= MAX_LENGTH
  {
    if length <= MAX_LENGTH {
      var k := (length + 15) / 16;
      assert OffsetAfter(k) == 16 * k;
    }
    if k: nat :| OffsetAfter(k) >= length {
      var turns := 16 * k / SIZE_LIMIT;
      assert OffsetAfter(k) == 16 * (k - turns * (SIZE_LIMIT / 16));
    }
  }

  /** `ns_hex_dump`. `accepts` is the sink's answer to its k-th line; the dump stops at the first
      refusal, and only then fails. */
  method Dump(data: seq<byte>, width: nat, accepts: (nat, string) -> bool) returns (ok: bool, lines: seq<string>)
    requires |data| <= MAX_LENGTH && 1 <= width <= 16
    ensures lines == Sent(DumpText(data, width), 0, accepts)
    ensures ok == AcceptsAll(DumpText(data, width), accepts)
  {
    hide Line, Sent, AcceptsAll, Underway;
    var line := new char[LINE_BUFFER];
    lines, ok := [], true;
    ghost var all := DumpText(data, width);
    ghost var rest := all;
    SendBounds(all, [], accepts);
    var offset := 0;
    while offset < |data|
      invariant rest == Lines(data, offset, width, Render(width))
      invariant Underway(all, lines, rest, accepts)
    {
      var text := NextLine(data, offset, width, line);
      offset := offset + width;
      rest := Lines(data, offset, width, Render(width));
      SendNext(all, lines, text, rest, accepts);
      ok := accepts(|lines|, text);
      lines := lines + [text];
      if !ok {
        return;
      }
    }
    SendBounds(all, lines, accepts);
  }
}
