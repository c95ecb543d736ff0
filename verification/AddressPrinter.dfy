/** The loops of `ns_format_ipv6` (src/util.c) against the address text they must write. */
module AddressPrinter {
  import opened Bytes
  import opened Numerals
  import opened AddressText

  /** The run trackers of the scan over the eight groups. */
  method FindRun(g: seq<Group>) returns (run: Run)
    ensures run == Compressed(g)
  {
    var bestStart, bestLen := -1, 0;
    var curStart, curLen := -1, 0;
    for i := 0 to |g|
      invariant Run(bestStart, bestLen) == Longest(g, i)
      invariant curLen == ZerosBefore(g, i) && curLen <= i
      invariant curStart == if curLen == 0 then -1 else i - curLen
    {
      if g[i] == 0 {
        if curStart < 0 {
          curStart := i;
        }
        curLen := curLen + 1;
        if curLen > bestLen {
          bestLen, bestStart := curLen, curStart;
        }
      } else {
        curStart, curLen := -1, 0;
      }
    }
    if bestLen < 2 {
      bestStart, bestLen := -1, 0;
    }
    run := Run(bestStart, bestLen);
  }

  /** The text when the writing loop has arrived at group `i`. */
  function SoFar(g: seq<Group>, run: Run, i: nat): string
    requires i <= |g| && (0 <= run.start < i ==> run.start + run.len <= i)
  {
    if run.start < 0 || i <= run.start then Join(HexFields(g[..i]), ':')
    else Join(HexFields(g[..run.start]), ':') + "::" + Join(HexFields(g[run.start + run.len..i]), ':')
  }

  lemma JoinOneMore(g: seq<Group>, from: nat, i: nat)
    requires from <= i < |g|
    ensures Join(HexFields(g[from..i + 1]), ':') ==
            Join(HexFields(g[from..i]), ':') + (if from < i then ":" else "") + Digits(g[i], 16)
  {
    var front := HexFields(g[from..i]);
    assert HexFields(g[from..i + 1]) == front + [Digits(g[i], 16)];
    if from < i {
      JoinAppend(front, [Digits(g[i], 16)], ':');
    } else {
      assert front + [Digits(g[i], 16)] == [Digits(g[i], 16)];
    }
  }

  lemma SoFarGroup(g: seq<Group>, run: Run, i: nat)
    requires i < |g| && i != run.start
    requires 0 <= run.start < i ==> run.start + run.len <= i
    requires run.start < 0 ==> run.len == 0
    ensures SoFar(g, run, i + 1) ==
            SoFar(g, run, i) + (if i != 0 && i != run.start + run.len then ":" else "") + Digits(g[i], 16)
  {
    hide Join, Digits;
    if run.start < 0 || i < run.start {
      assert g[0..i + 1] == g[..i + 1] && g[0..i] == g[..i];
      JoinOneMore(g, 0, i);
    } else {
      JoinOneMore(g, run.start + run.len, i);
    }
  }

  /** One group, behind a colon unless it opens the text or follows "::". */
  method WriteGroup(tmp: array<char>, pos: nat, colon: bool, group: Group) returns (end: nat)
    requires pos + 5 <= tmp.Length
    modifies tmp
    ensures pos < end <= pos + (if colon then 5 else 4)
    ensures tmp[..end] == old(tmp[..pos]) + (if colon then ":" else "") + Digits(group, 16)
  {
    assert Power(16, 4) == 0x1_0000;
    DigitsLength(group, 16, 4);
    end := pos;
    if colon {
      end := Put(tmp, end, ":");
    }
    end := Put(tmp, end, Digits(group, 16));
  }

  /** The writing loop. A 46-byte scratch buffer is never overrun and never left empty. */
  method WriteGroups(g: seq<Group>, run: Run, tmp: array<char>) returns (pos: nat)
    requires |g| == 8 && tmp.Length == 46
    requires run == Run(-1, 0) || (0 <= run.start && 2 <= run.len && run.start + run.len <= 8)
    modifies tmp
    ensures 0 < pos <= 39 && tmp[..pos] == TextWith(g, run)
  {
    hide Digits;
    pos := 0;
    var i := 0;
    while i < 8
      invariant 0 <= i <= 8 && (0 <= run.start < i ==> run.start + run.len <= i)
      invariant (if i == 0 then 0 else 1) <= pos <= (if i == 0 then 0 else 5 * i - 1)
      invariant tmp[..pos] == SoFar(g, run, i)
    {
      if i == run.start {
        SoFarRun(g, run);
        pos := Put(tmp, pos, "::");
        i := i + run.len;
      } else {
        SoFarGroup(g, run, i);
        pos := WriteGroup(tmp, pos, i != 0 && i != run.start + run.len, g[i]);
        i := i + 1;
      }
    }
    assert g[..8] == g && (run.start >= 0 ==> g[run.start + run.len..8] == g[run.start + run.len..]);
  }

  lemma SoFarRun(g: seq<Group>, run: Run)
    requires 0 <= run.start && 0 < run.len && run.start + run.len <= |g|
    ensures SoFar(g, run, run.start + run.len) == SoFar(g, run, run.start) + "::"
  {
    assert g[run.start + run.len..run.start + run.len] == [];
  }

  /** `ns_format_ipv6`: the address text, cut to the buffer; a buffer of 40 bytes cuts nothing. */
  method FormatIPv6(addr: seq<byte>, buf: array<char>) returns (n: nat)
    requires |addr| == 16
    modifies buf
    ensures buf.Length > 0 ==> n < buf.Length && buf[..n] == Clip(IPv6Text(addr), buf.Length) && buf[n] == '\0'
    ensures buf.Length >= 40 ==> n <= 39 && buf[..n] == IPv6Text(addr)
  {
    var groups: seq<Group> := [];
    for i := 0 to 8
      invariant groups == GroupsOf(addr)[..i]
    {
      groups := groups + [U16(addr, 2 * i)];
    }
    assert groups == GroupsOf(addr);
    var run := FindRun(groups);
    CompressedIsCanonical(groups, 0, 0);
    var tmp := new char[46];
    var pos := WriteGroups(groups, run, tmp);
    if pos == 0 {
      assert false;  // the source would write "::" here
    }
    n := Print(buf, tmp[..pos]);
  }
}
