/** IPv4 and IPv6 addresses as text (`ns_format_ipv4`, `ns_format_ipv6` of src/util.c), with the
    readers that invert them. */
module AddressText {
  import opened Bytes
  import opened Numerals

  // ----- IPv4 -----

  function OctetFields(addr: seq<byte>): seq<string> {
    seq(|addr|, i requires 0 <= i < |addr| => Digits(addr[i], 10))
  }

  function IPv4Text(addr: seq<byte>): string {
    Join(OctetFields(addr), '.')
  }

  function ReadOctets(fields: seq<string>): Option<seq<byte>> {
    if fields == [] then Some([])
    else if !AllDigits(fields[0], 10) || Value(fields[0], 10) > 255 then None
    else
      var rest := ReadOctets(fields[1..]);
      if rest.None? then None else Some([Value(fields[0], 10)] + rest.value)
  }

  function ReadIPv4(text: string): Option<seq<byte>> {
    ReadOctets(Split(text, '.'))
  }

  lemma {:induction false} ReadOctetFields(addr: seq<byte>)
    ensures ReadOctets(OctetFields(addr)) == Some(addr)
  {
    if addr != [] {
      ReadDigits(addr[0], 10);
      assert OctetFields(addr)[1..] == OctetFields(addr[1..]);
      ReadOctetFields(addr[1..]);
      assert addr == [addr[0]] + addr[1..];
    }
  }

  lemma IPv4RoundTrip(addr: seq<byte>)
    requires addr != []
    ensures ReadIPv4(IPv4Text(addr)) == Some(addr)
  {
    SplitJoin(OctetFields(addr), '.');
    ReadOctetFields(addr);
  }

  lemma IPv4TextIs(a: byte, b: byte, c: byte, d: byte)
    ensures IPv4Text([a, b, c, d]) ==
            Digits(a, 10) + "." + (Digits(b, 10) + "." + (Digits(c, 10) + "." + Digits(d, 10)))
  {
    hide Digits;
    var fields := OctetFields([a, b, c, d]);
    assert fields == [Digits(a, 10), Digits(b, 10), Digits(c, 10), Digits(d, 10)];
    assert fields[1..][1..] == fields[2..] && fields[2..][1..] == fields[3..];
    assert Join(fields[3..], '.') == Digits(d, 10);
    assert Join(fields[2..], '.') == Digits(c, 10) + "." + Join(fields[3..], '.');
    assert Join(fields[1..], '.') == Digits(b, 10) + "." + Join(fields[2..], '.');
  }

  lemma {:induction false} JoinLength(fields: seq<string>, sep: char, each: nat)
    requires fields != [] && forall i :: 0 <= i < |fields| ==> |fields[i]| <= each
    ensures |Join(fields, sep)| <= (each + 1) * |fields| - 1
  {
    if |fields| > 1 {
      JoinLength(fields[1..], sep, each);
      assert (each + 1) * |fields| == (each + 1) * |fields[1..]| + (each + 1);
    }
  }

  lemma IPv4Length(addr: seq<byte>)
    requires |addr| == 4
    ensures |IPv4Text(addr)| <= 15
  {
    forall i | 0 <= i < 4
      ensures |OctetFields(addr)[i]| <= 3
    {
      assert Power(10, 3) == 1000;
      DigitsLength(addr[i], 10, 3);
    }
    JoinLength(OctetFields(addr), '.', 3);
  }

  // ----- IPv6 groups -----

  type Group = x: int | 0 <= x < 0x1_0000

  function GroupsOf(addr: seq<byte>): (g: seq<Group>)
    requires |addr| == 16
    ensures |g| == 8 && forall i :: 0 <= i < 8 ==> g[i] == U16(addr, 2 * i)
  {
    seq(8, i requires 0 <= i < 8 => U16(addr, 2 * i))
  }

  function Octets(groups: seq<Group>): seq<byte> {
    if groups == [] then []
    else [groups[0] / 0x100] + [groups[0] % 0x100] + Octets(groups[1..])
  }

  lemma {:induction false} OctetsOfGroups(addr: seq<byte>, i: nat)
    requires |addr| == 16 && i <= 8
    ensures Octets(GroupsOf(addr)[i..]) == addr[2 * i..]
    decreases 8 - i
  {
    if i < 8 {
      var g := GroupsOf(addr);
      OctetsOfGroups(addr, i + 1);
      assert g[i..][1..] == g[i + 1..] && g[i] == U16(addr, 2 * i);
      assert addr[2 * i..] == [addr[2 * i]] + [addr[2 * i + 1]] + addr[2 * (i + 1)..];
    }
  }

  // ----- The zero run that is compressed -----

  /** The length of the run of zero groups that ends just before group `i`. */
  function ZerosBefore(g: seq<Group>, i: nat): nat
    requires i <= |g|
  {
    if i == 0 || g[i - 1] != 0 then 0 else 1 + ZerosBefore(g, i - 1)
  }

  datatype Run = Run(start: int, len: nat)

  /** The first longest zero run among the first `i` groups. */
  function Longest(g: seq<Group>, i: nat): Run
    requires i <= |g|
  {
    if i == 0 then Run(-1, 0)
    else
      var best, cur := Longest(g, i - 1), ZerosBefore(g, i);
      if cur > best.len then Run(i - cur, cur) else best
  }

  function Compressed(g: seq<Group>): Run {
    var best := Longest(g, |g|);
    if best.len < 2 then Run(-1, 0) else best
  }

  predicate ZeroRun(g: seq<Group>, start: int, len: int) {
    0 <= start && 0 <= len && start + len <= |g| && forall i :: start <= i < start + len ==> g[i] == 0
  }

  lemma {:induction false} ZerosBeforeIsMaximal(g: seq<Group>, i: nat, start: int)
    requires i <= |g|
    ensures ZerosBefore(g, i) <= i && ZeroRun(g, i - ZerosBefore(g, i), ZerosBefore(g, i))
    ensures 0 <= start <= i && ZeroRun(g, start, i - start) ==> i - start <= ZerosBefore(g, i)
  {
    if i > 0 && g[i - 1] == 0 {
      ZerosBeforeIsMaximal(g, i - 1, start);
    }
  }

  lemma {:induction false} LongestIsFirst(g: seq<Group>, i: nat, start: int, len: nat)
    requires i <= |g|
    ensures var best := Longest(g, i);
      && (best.len > 0 ==> ZeroRun(g, best.start, best.len) && best.start + best.len <= i)
      && (ZeroRun(g, start, len) && 0 < len && start + len <= i ==>
            len < best.len || (len == best.len && best.start <= start))
  {
    if i > 0 {
      LongestIsFirst(g, i - 1, start, len);
      ZerosBeforeIsMaximal(g, i, start);
    }
  }

  /** Sections 4.2.2 and 4.2.3 of RFC 5952: a run is compressed exactly when two zero groups are
      adjacent; it is then a longest run, and the first of these. */
  lemma CompressedIsCanonical(g: seq<Group>, start: int, len: nat)
    ensures var run := Compressed(g);
      && (run == Run(-1, 0) || (run.len >= 2 && ZeroRun(g, run.start, run.len)))
      && (ZeroRun(g, start, len) && len >= 2 ==>
            len < run.len || (len == run.len && run.start <= start))
  {
    LongestIsFirst(g, |g|, start, len);
  }

  // ----- IPv6 text -----

  function HexFields(g: seq<Group>): seq<string> {
    seq(|g|, i requires 0 <= i < |g| => Digits(g[i], 16))
  }

  /** The text with `run` written as "::". */
  function TextWith(g: seq<Group>, run: Run): string
    requires run.start < 0 || run.start + run.len <= |g|
  {
    if run.start < 0 then Join(HexFields(g), ':')
    else Join(HexFields(g[..run.start]), ':') + "::" + Join(HexFields(g[run.start + run.len..]), ':')
  }

  function IPv6Text(addr: seq<byte>): string
    requires |addr| == 16
  {
    var g := GroupsOf(addr);
    CompressedIsCanonical(g, 0, 0);
    TextWith(g, Compressed(g))
  }

  // ----- The reader -----

  function FrontFull(fields: seq<string>): nat {
    if fields == [] || fields[0] == "" then 0 else 1 + FrontFull(fields[1..])
  }

  function BackFull(fields: seq<string>): nat {
    if fields == [] || fields[|fields| - 1] == "" then 0 else 1 + BackFull(fields[..|fields| - 1])
  }

  function ReadGroups(fields: seq<string>): (r: Option<seq<Group>>)
    ensures r.Some? ==> |r.value| == |fields|
  {
    if fields == [] then Some([])
    else if |fields[0]| > 4 || !AllDigits(fields[0], 16) || Value(fields[0], 16) >= 0x1_0000 then None
    else
      var rest := ReadGroups(fields[1..]);
      if rest.None? then None else Some([Value(fields[0], 16)] + rest.value)
  }

  function ZeroGroups(n: nat): (z: seq<Group>)
    ensures |z| == n && forall i :: 0 <= i < n ==> z[i] == 0
  {
    seq(n, _ => 0)
  }

  /** Reads a written-out or a compressed address: groups, at most one "::", groups. */
  function ReadFields(fields: seq<string>): Option<seq<byte>> {
    var front, back := FrontFull(fields), BackFull(fields);
    if front == |fields| then
      var all := ReadGroups(fields);
      if all.None? || |all.value| != 8 then None else Some(Octets(all.value))
    else if front + back > 6 || front + back >= |fields| then None
    else if |fields| != front + back + 1 + (if front == 0 then 1 else 0) + (if back == 0 then 1 else 0) then None
    else
      var a, b := ReadGroups(fields[..front]), ReadGroups(fields[|fields| - back..]);
      if a.None? || b.None? then None
      else Some(Octets(a.value + ZeroGroups(8 - front - back) + b.value))
  }

  function ReadIPv6(text: string): Option<seq<byte>> {
    ReadFields(Split(text, ':'))
  }

  // ----- Every address reads back -----

  lemma {:induction false} ReadHexFields(g: seq<Group>)
    ensures ReadGroups(HexFields(g)) == Some(g)
  {
    if g != [] {
      ReadDigits(g[0], 16);
      assert Power(16, 4) == 0x1_0000;
      DigitsLength(g[0], 16, 4);
      assert HexFields(g)[1..] == HexFields(g[1..]);
      ReadHexFields(g[1..]);
      assert g == [g[0]] + g[1..];
    }
  }

  /** The empty fields that "::" leaves between the fields in front of it and behind it. */
  function Gap(front: bool, back: bool): (e: seq<string>)
    ensures |e| == 1 + (if front then 0 else 1) + (if back then 0 else 1)
    ensures forall i :: 0 <= i < |e| ==> e[i] == ""
  {
    seq(1 + (if front then 0 else 1) + (if back then 0 else 1), _ => "")
  }

  lemma JoinGap(a: seq<string>, b: seq<string>)
    ensures Join(a + Gap(a != [], b != []) + b, ':') == Join(a, ':') + "::" + Join(b, ':')
  {
    var e := Gap(a != [], b != []);
    if a == [] && b == [] {
      assert a + e + b == [""] + ["", ""];
      JoinAppend([""], ["", ""], ':');
      JoinAppend([""], [""], ':');
      assert [""] + [""] == ["", ""];
    } else if a == [] {
      assert a + e + b == ["", ""] + b;
      JoinAppend(["", ""], b, ':');
    } else if b == [] {
      assert a + e + b == a + ["", ""];
      JoinAppend(a, ["", ""], ':');
    } else {
      assert a + e + b == a + ([""] + b);
      JoinAppend([""], b, ':');
      JoinAppend(a, [""] + b, ':');
    }
  }

  lemma {:induction false} FrontFullOf(fields: seq<string>, k: nat)
    requires k <= |fields| && forall i :: 0 <= i < k ==> fields[i] != ""
    requires k < |fields| ==> fields[k] == ""
    ensures FrontFull(fields) == k
  {
    if k > 0 {
      FrontFullOf(fields[1..], k - 1);
    }
  }

  lemma {:induction false} BackFullOf(fields: seq<string>, k: nat)
    requires k <= |fields| && forall i :: |fields| - k <= i < |fields| ==> fields[i] != ""
    requires k < |fields| ==> fields[|fields| - 1 - k] == ""
    ensures BackFull(fields) == k
  {
    if k > 0 {
      BackFullOf(fields[..|fields| - 1], k - 1);
    }
  }

  lemma ReadUncompressed(g: seq<Group>)
    requires |g| == 8
    ensures ReadIPv6(Join(HexFields(g), ':')) == Some(Octets(g))
  {
    var fields := HexFields(g);
    SplitJoin(fields, ':');
    FrontFullOf(fields, 8);
    ReadHexFields(g);
  }

  lemma ReadFieldsAs(fields: seq<string>, a: seq<Group>, b: seq<Group>)
    requires |a| + |b| <= 6
    requires FrontFull(fields) == |a| && BackFull(fields) == |b|
    requires |fields| == |a| + |b| + |Gap(a != [], b != [])|
    requires ReadGroups(fields[..|a|]) == Some(a) && ReadGroups(fields[|fields| - |b|..]) == Some(b)
    ensures ReadFields(fields) == Some(Octets(a + ZeroGroups(8 - |a| - |b|) + b))
  {
  }

  lemma ReadGapped(a: seq<Group>, b: seq<Group>, fields: seq<string>)
    requires |a| + |b| <= 6
    requires fields == HexFields(a) + Gap(a != [], b != []) + HexFields(b)
    ensures ReadFields(fields) == Some(Octets(a + ZeroGroups(8 - |a| - |b|) + b))
  {
    var x, e, y := HexFields(a), Gap(a != [], b != []), HexFields(b);
    FrontFullOf(fields, |x|);
    BackFullOf(fields, |y|);
    assert fields[..|a|] == x && fields[|fields| - |b|..] == y;
    ReadHexFields(a);
    ReadHexFields(b);
    ReadFieldsAs(fields, a, b);
  }

  lemma ReadCompressed(a: seq<Group>, b: seq<Group>)
    requires |a| + |b| <= 6
    ensures ReadIPv6(Join(HexFields(a), ':') + "::" + Join(HexFields(b), ':')) ==
            Some(Octets(a + ZeroGroups(8 - |a| - |b|) + b))
  {
    hide Join, Split, ReadFields, Octets;
    var x, y := HexFields(a), HexFields(b);
    var fields := x + Gap(a != [], b != []) + y;
    assert a != [] <==> x != [];
    assert b != [] <==> y != [];
    JoinGap(x, y);
    SplitJoin(fields, ':');
    ReadGapped(a, b, fields);
  }

  /** Every address reads back from its text; so no two addresses share a text. */
  lemma IPv6RoundTrip(addr: seq<byte>)
    requires |addr| == 16
    ensures ReadIPv6(IPv6Text(addr)) == Some(addr)
  {
    hide ReadIPv6, Join, HexFields, Octets, Compressed;
    var g := GroupsOf(addr);
    var run := Compressed(g);
    CompressedIsCanonical(g, 0, 0);
    OctetsOfGroups(addr, 0);
    assert g[0..] == g && addr[0..] == addr;
    if run.start < 0 {
      ReadUncompressed(g);
    } else {
      var a, b := g[..run.start], g[run.start + run.len..];
      ReadCompressed(a, b);
      assert g == a + ZeroGroups(run.len) + b;
    }
  }

  // ----- The canonical form -----

  /** The first among the longest runs of at least two zero groups. */
  ghost predicate IsRunToCompress(g: seq<Group>, start: nat, len: nat) {
    && len >= 2 && ZeroRun(g, start, len)
    && forall s, l :: ZeroRun(g, s, l) && l >= 2 ==> l < len || (l == len && start <= s)
  }

  /** Sections 4.2 and 4.3 of RFC 5952: the text is the groups in lower-case hexadecimal without leading
      zeros, with the run to compress, and nothing else, written as "::". */
  lemma TextIsCanonical(addr: seq<byte>, start: nat, len: nat)
    requires |addr| == 16
    ensures var g := GroupsOf(addr);
      && (IsRunToCompress(g, start, len) ==>
            IPv6Text(addr) == Join(HexFields(g[..start]), ':') + "::" + Join(HexFields(g[start + len..]), ':'))
      && ((forall i :: 0 <= i < 7 ==> g[i] != 0 || g[i + 1] != 0) ==> IPv6Text(addr) == Join(HexFields(g), ':'))
      && (forall i :: 0 <= i < 8 ==> HexFields(g)[i] == Digits(g[i], 16))
  {
    hide Join, Longest, Digits;
    var g := GroupsOf(addr);
    var run := Compressed(g);
    CompressedIsCanonical(g, start, len);
    if run.start >= 0 {
      assert g[run.start] == 0 && g[run.start + 1] == 0;
    }
  }

  // ----- Size and separators -----

  lemma HexLength(g: seq<Group>)
    ensures |Join(HexFields(g), ':')| <= 5 * |g|
    ensures g != [] ==> |Join(HexFields(g), ':')| <= 5 * |g| - 1
  {
    forall i | 0 <= i < |g|
      ensures |HexFields(g)[i]| <= 4
    {
      assert Power(16, 4) == 0x1_0000;
      DigitsLength(g[i], 16, 4);
    }
    if g != [] {
      JoinLength(HexFields(g), ':', 4);
    }
  }

  lemma IPv6Length(addr: seq<byte>)
    requires |addr| == 16
    ensures |IPv6Text(addr)| <= 39
  {
    var g := GroupsOf(addr);
    var run := Compressed(g);
    CompressedIsCanonical(g, 0, 0);
    if run.start < 0 {
      HexLength(g);
    } else {
      HexLength(g[..run.start]);
      HexLength(g[run.start + run.len..]);
    }
  }

  lemma {:induction false} JoinChars(fields: seq<string>, sep: char, c: char)
    requires forall f :: f in fields ==> c !in f
    ensures c != sep ==> c !in Join(fields, sep)
    ensures |fields| >= 2 ==> sep in Join(fields, sep)
  {
    if |fields| >= 1 {
      assert fields[0] in fields;
      JoinChars(fields[1..], sep, c);
    }
  }

  /** IPv4 and IPv6 texts never coincide: only the former has dots, only the latter colons. */
  lemma FamiliesDiffer(v4: seq<byte>, v6: seq<byte>)
    requires |v4| == 4 && |v6| == 16
    ensures IPv4Text(v4) != IPv6Text(v6)
  {
    JoinChars(OctetFields(v4), '.', ':');
    var g := GroupsOf(v6);
    var run := Compressed(g);
    CompressedIsCanonical(g, 0, 0);
    JoinChars(HexFields(g), ':', '.');
    if run.start >= 0 {
      assert IPv6Text(v6)[|Join(HexFields(g[..run.start]), ':')|] == ':';
    }
  }
}
