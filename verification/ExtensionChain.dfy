/** The IPv6 extension-header walk (`ns_ipv6_skip_extension_headers`, src/protocols/ipv6.c) against
    the unbounded chain of section 4 of RFC 8200, over the four kinds that the program knows. That
    section also names Authentication (51) and ESP (50) headers, at which the program stops as if
    they were upper-layer headers. */
module ExtensionChain {
  import opened Bytes

  const MAX_HEADERS := 8

  predicate IsOptions(header: byte) {
    header == 0 || header == 43 || header == 60  // Hop-by-Hop, Routing, Destination Options
  }

  predicate IsExtension(header: byte) {
    IsOptions(header) || header == 44            // Fragment
  }

  /** The length of the extension header of kind `header` at `offset`, if it was captured whole. */
  function ExtensionLength(data: seq<byte>, offset: nat, header: byte): (len: Option<nat>)
    requires IsExtension(header)
    ensures len.Some? ==> 8 <= len.value <= 2048 && len.value % 8 == 0 && InBounds(|data|, offset, len.value)
  {
    var len :=
      if IsOptions(header) then
        if InBounds(|data|, offset, 2) then Some(8 * (data[offset + 1] as int + 1)) else None
      else Some(8);
    if len.Some? && InBounds(|data|, offset, len.value) then len else None
  }

  // ----- The unbounded chain: follow the known headers for as long as they last -----

  datatype Chain =
    | Reached(offset: nat, header: byte, count: nat)  // an upper-layer header, `count` extensions on
    | Broken(offset: nat, header: byte, count: nat)   // extension `count` was not captured whole

  function Counted(c: Chain): Chain {
    c.(count := c.count + 1)
  }

  function Follow(data: seq<byte>, offset: nat, header: byte): (c: Chain)
    ensures offset <= |data| ==> offset + 8 * c.count <= c.offset <= |data|
    decreases |data| - offset
  {
    if !IsExtension(header) then Reached(offset, header, 0)
    else
      match ExtensionLength(data, offset, header)
      case None => Broken(offset, header, 0)
      case Some(len) => Counted(Follow(data, offset + len, data[offset]))
  }

  // ----- The bounded walk -----

  datatype Walked = Walked(ok: bool, offset: nat, header: byte)

  /** The walk with `budget` iterations left. */
  function Skip(data: seq<byte>, offset: nat, header: byte, budget: nat): Walked
    decreases budget
  {
    if budget == 0 then Walked(false, offset, header)
    else if !IsExtension(header) then Walked(true, offset, header)
    else
      match ExtensionLength(data, offset, header)
      case None => Walked(false, offset, header)
      case Some(len) => Skip(data, offset + len, data[offset], budget - 1)
  }

  /** The loop, for any iteration limit; the dissector passes MAX_HEADERS. */
  method SkipExtensionHeaders(data: seq<byte>, start: nat, first: byte, limit: nat)
      returns (ok: bool, offset: nat, header: byte)
    ensures Walked(ok, offset, header) == Skip(data, start, first, limit)
  {
    offset, header := start, first;
    for i := 0 to limit
      invariant Skip(data, start, first, limit) == Skip(data, offset, header, limit - i)
    {
      if IsOptions(header) {
        if !InBounds(|data|, offset, 2) {
          return false, offset, header;
        }
        var next, len := data[offset], 8 * (data[offset + 1] as int + 1);
        if !InBounds(|data|, offset, len) {
          return false, offset, header;
        }
        assert ExtensionLength(data, offset, header) == Some(len);
        offset, header := offset + len, next;
      } else if header == 44 {
        if !InBounds(|data|, offset, 1) || !InBounds(|data|, offset, 8) {
          return false, offset, header;
        }
        assert ExtensionLength(data, offset, header) == Some(8);
        offset, header := offset + 8, data[offset];
      } else {
        return true, offset, header;
      }
    }
    ok := false;
  }

  // ----- The walk is the chain, cut after seven extension headers -----

  /** With `budget` iterations the walk succeeds exactly on the chains with fewer than `budget`
      extension headers, and then ends where the chain does. */
  lemma {:induction false} SkipFollows(data: seq<byte>, offset: nat, header: byte, budget: nat)
    ensures var w, c := Skip(data, offset, header, budget), Follow(data, offset, header);
      && (w.ok <==> c.Reached? && c.count < budget)
      && (c.count < budget ==> w.offset == c.offset && w.header == c.header)
    decreases budget
  {
    if budget > 0 && IsExtension(header) {
      var len := ExtensionLength(data, offset, header);
      if len.Some? {
        SkipFollows(data, offset + len.value, data[offset], budget - 1);
      }
    }
  }

  /** The walk moves in steps of eight bytes, at most 2048 a header, and stays in the capture. */
  lemma {:induction false} SkipReach(data: seq<byte>, offset: nat, header: byte, budget: nat)
    requires offset <= |data|
    ensures var w := Skip(data, offset, header, budget);
      && offset <= w.offset <= |data| && (w.offset - offset) % 8 == 0
      && w.offset - offset <= 2048 * budget
      && (w.ok ==> w.offset - offset <= 2048 * (budget - 1))
    decreases budget
  {
    hide ExtensionLength;
    if budget > 0 && IsExtension(header) {
      var len := ExtensionLength(data, offset, header);
      if len.Some? {
        SkipReach(data, offset + len.value, data[offset], budget - 1);
      }
    }
  }

  /** The walk accepts exactly the chains of at most seven captured extension headers, with their
      upper-layer header and its offset, at most 7 * 2048 bytes on, never past the capture. */
  lemma WalkIsBoundedChain(data: seq<byte>, offset: nat, header: byte)
    requires offset <= |data|
    ensures var w, c := Skip(data, offset, header, MAX_HEADERS), Follow(data, offset, header);
      && (w.ok <==> c.Reached? && c.count <= 7)
      && (w.ok ==> w == Walked(true, c.offset, c.header) && w.offset <= offset + 7 * 2048)
      && offset <= w.offset <= |data| && (w.offset - offset) % 8 == 0
  {
    SkipFollows(data, offset, header, MAX_HEADERS);
    SkipReach(data, offset, header, MAX_HEADERS);
  }

  /** More captured bytes never change a successful walk, nor the verdict on a chain that is too
      long; they move a failed walk on, never back. */
  lemma {:induction false} SkipStable(data: seq<byte>, longer: seq<byte>, offset: nat, header: byte, budget: nat)
    requires data <= longer
    ensures var part, whole := Skip(data, offset, header, budget), Skip(longer, offset, header, budget);
      && (part.ok ==> whole == part)
      && (Follow(data, offset, header).count >= budget ==> whole == part)
      && part.offset <= whole.offset
    decreases budget
  {
    if budget > 0 && IsExtension(header) {
      var len := ExtensionLength(data, offset, header);
      if len.Some? {
        assert ExtensionLength(longer, offset, header) == len;
        SkipStable(data, longer, offset + len.value, data[offset], budget - 1);
      } else {
        SkipAdvances(longer, offset, header, budget);
      }
    }
  }

  lemma {:induction false} SkipAdvances(data: seq<byte>, offset: nat, header: byte, budget: nat)
    ensures Skip(data, offset, header, budget).offset >= offset
    decreases budget
  {
    if budget > 0 && IsExtension(header) {
      var len := ExtensionLength(data, offset, header);
      if len.Some? {
        SkipAdvances(data, offset + len.value, data[offset], budget - 1);
      }
    }
  }

  /** Eight options headers of eight bytes, the last of them in front of an upper-layer header. */
  const EIGHT_HEADERS: seq<byte> := seq(64, i => if i == 56 then 59 else 0)

  lemma {:induction false} LastHeaders(n: nat)
    requires 1 <= n <= 8
    ensures Follow(EIGHT_HEADERS, 64 - 8 * n, 0) == Reached(64, 59, n)
  {
    var at := 64 - 8 * n;
    assert ExtensionLength(EIGHT_HEADERS, at, 0) == Some(8);
    if n > 1 {
      LastHeaders(n - 1);
    }
  }

  /** The limit is one below its constant: a chain of eight headers, captured whole, is refused. */
  lemma EighthHeaderIsRefused()
    ensures Follow(EIGHT_HEADERS, 0, 0) == Reached(64, 59, MAX_HEADERS)
    ensures !Skip(EIGHT_HEADERS, 0, 0, MAX_HEADERS).ok
  {
    LastHeaders(8);
    SkipFollows(EIGHT_HEADERS, 0, 0, MAX_HEADERS);
  }

  // ----- Fragment headers -----

  /** The chain from `offset` has a Fragment header at `fragment`. */
  predicate Visits(data: seq<byte>, offset: nat, header: byte, fragment: nat)
    decreases |data| - offset
  {
    && IsExtension(header)
    && ExtensionLength(data, offset, header).Some?
    && ((header == 44 && offset == fragment) ||
        Visits(data, offset + ExtensionLength(data, offset, header).value, data[offset], fragment))
  }

  /** Two captures that differ at most in the seven bytes of a Fragment header behind its first. */
  predicate SameButFragment(data: seq<byte>, other: seq<byte>, fragment: nat) {
    |data| == |other| && forall i :: 0 <= i < |data| && !(fragment < i < fragment + 8) ==> data[i] == other[i]
  }

  lemma {:induction false} VisitsBehind(data: seq<byte>, offset: nat, header: byte, fragment: nat)
    requires Visits(data, offset, header, fragment)
    ensures offset <= fragment && fragment + 8 <= |data|
    decreases |data| - offset
  {
    if !(header == 44 && offset == fragment) {
      VisitsBehind(data, offset + ExtensionLength(data, offset, header).value, data[offset], fragment);
    }
  }

  /** The walk depends on nothing in front of where it stands. */
  lemma {:induction false} SkipIsLocal(data: seq<byte>, other: seq<byte>, offset: nat, header: byte, budget: nat)
    requires |data| == |other| && forall i :: offset <= i < |data| ==> data[i] == other[i]
    ensures Skip(other, offset, header, budget) == Skip(data, offset, header, budget)
    decreases budget
  {
    if budget > 0 && IsExtension(header) {
      assert ExtensionLength(other, offset, header) == ExtensionLength(data, offset, header);
      var len := ExtensionLength(data, offset, header);
      if len.Some? {
        SkipIsLocal(data, other, offset + len.value, data[offset], budget - 1);
      }
    }
  }

  /** What a Fragment header says about its fragment does not change the walk, which ends behind it
      whenever it succeeds. */
  lemma {:induction false} SkipIgnoresFragment(data: seq<byte>, other: seq<byte>, offset: nat, header: byte,
                                               fragment: nat, budget: nat)
    requires Visits(data, offset, header, fragment) && SameButFragment(data, other, fragment)
    ensures Skip(other, offset, header, budget) == Skip(data, offset, header, budget)
    ensures Skip(data, offset, header, budget).ok ==> Skip(data, offset, header, budget).offset >= fragment + 8
    decreases budget
  {
    if budget > 0 {
      var next := offset + ExtensionLength(data, offset, header).value;
      VisitsBehind(data, offset, header, fragment);
      if header == 44 && offset == fragment {
        SkipIsLocal(data, other, next, data[offset], budget - 1);
        SkipAdvances(data, next, data[offset], budget - 1);
      } else {
        VisitsBehind(data, next, data[offset], fragment);
        assert ExtensionLength(other, offset, header) == ExtensionLength(data, offset, header);
        SkipIgnoresFragment(data, other, next, data[offset], fragment, budget - 1);
      }
    }
  }
}
