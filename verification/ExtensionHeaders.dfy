/** The IPv6 extension headers that src/protocols/ipv6.c walks over, as bytes (section 4 of RFC 8200). */
module ExtensionHeaders {
  import opened Bytes
  import opened ExtensionChain

  /** A Hop-by-Hop Options (0), Routing (43) or Destination Options (60) header of `units` further
      eight-byte units, or a Fragment header (44), of which only the next-header byte is read. */
  datatype Extension =
    | Options(kind: byte, next: byte, units: byte, body: seq<byte>)
    | Fragment(next: byte, body: seq<byte>)

  predicate Valid(x: Extension) {
    match x
    case Options(kind, _, units, body) => (kind == 0 || kind == 43 || kind == 60) && |body| == 8 * (units as int + 1) - 2
    case Fragment(_, body) => |body| == 7
  }

  function KindOf(x: Extension): byte {
    match x
    case Options(kind, _, _, _) => kind
    case Fragment(_, _) => 44
  }

  function Encode(x: Extension): seq<byte> {
    match x
    case Options(_, next, units, body) => [next] + [units] + body
    case Fragment(next, body) => [next] + body
  }

  /** The headers `xs` are written from `at` on, each naming the kind of the one behind it; the first
      is of kind `kind`. */
  predicate ChainAt(data: seq<byte>, at: nat, kind: byte, xs: seq<Extension>)
    decreases |xs|
  {
    xs == [] ||
    (&& Valid(xs[0]) && KindOf(xs[0]) == kind && WrittenAt(data, at, Encode(xs[0]))
     && ChainAt(data, at + |Encode(xs[0])|, xs[0].next, xs[1..]))
  }

  /** What follows the headers. */
  function KindBehind(kind: byte, xs: seq<Extension>): byte {
    if xs == [] then kind else xs[|xs| - 1].next
  }

  function Length(xs: seq<Extension>): nat {
    if xs == [] then 0 else |Encode(xs[0])| + Length(xs[1..])
  }

  predicate IsUpper(kind: byte) {
    kind != 0 && kind != 43 && kind != 44 && kind != 60
  }

  /** The header at `at` is one whole extension header of kind `kind`. */
  ghost predicate OneAt(data: seq<byte>, at: nat, kind: byte) {
    exists x :: Valid(x) && KindOf(x) == kind && WrittenAt(data, at, Encode(x))
  }

  // ----- One header -----

  /** The header written at `at`, if it is there whole. */
  lemma HeaderIsWritten(data: seq<byte>, at: nat, kind: byte) returns (x: Extension)
    requires IsExtension(kind) && ExtensionLength(data, at, kind).Some?
    ensures Valid(x) && KindOf(x) == kind && WrittenAt(data, at, Encode(x))
    ensures |Encode(x)| == ExtensionLength(data, at, kind).value && x.next == data[at]
  {
    var len := ExtensionLength(data, at, kind).value;
    if kind == 44 {
      x := Fragment(data[at], data[at + 1..at + 8]);
    } else {
      x := Options(kind, data[at], data[at + 1], data[at + 2..at + len]);
    }
    assert Encode(x) == data[at..at + len];
  }

  lemma WrittenIsHeader(data: seq<byte>, at: nat, x: Extension)
    requires Valid(x) && WrittenAt(data, at, Encode(x))
    ensures IsExtension(KindOf(x)) && ExtensionLength(data, at, KindOf(x)) == Some(|Encode(x)|)
    ensures data[at] == x.next
  {
    assert data[at + 0] == Encode(x)[0] && data[at + 1] == Encode(x)[1];
  }

  lemma KindsAreKnown(kind: byte)
    ensures IsExtension(kind) <==> !IsUpper(kind)
  {
  }

  // ----- The walk -----

  lemma {:induction false} ChainIsWalked(data: seq<byte>, at: nat, kind: byte, xs: seq<Extension>, budget: nat)
    requires ChainAt(data, at, kind, xs) && IsUpper(KindBehind(kind, xs)) && |xs| < budget
    ensures Skip(data, at, kind, budget) == Walked(true, at + Length(xs), KindBehind(kind, xs))
    decreases |xs|
  {
    hide ExtensionLength, Encode, IsUpper, IsExtension;
    KindsAreKnown(kind);
    if xs != [] {
      WrittenIsHeader(data, at, xs[0]);
      ChainIsWalked(data, at + |Encode(xs[0])|, xs[0].next, xs[1..], budget - 1);
    }
  }

  lemma {:induction false} WalkIsChain(data: seq<byte>, at: nat, kind: byte, budget: nat) returns (xs: seq<Extension>)
    ensures ChainAt(data, at, kind, xs) && |xs| <= budget
    ensures var w := Skip(data, at, kind, budget);
      && w.offset == at + Length(xs) && w.header == KindBehind(kind, xs)
      && (w.ok <==> |xs| < budget && IsUpper(w.header))
      && (!w.ok && |xs| < budget ==> !IsUpper(w.header) && !OneAt(data, w.offset, w.header))
    decreases budget
  {
    hide ExtensionLength, Encode, IsUpper, IsExtension, OneAt;
    KindsAreKnown(kind);
    xs := [];
    if budget > 0 && IsExtension(kind) {
      if ExtensionLength(data, at, kind).Some? {
        var x := HeaderIsWritten(data, at, kind);
        var rest := WalkIsChain(data, at + |Encode(x)|, x.next, budget - 1);
        xs := [x] + rest;
        assert xs[1..] == rest;
      } else {
        NoneAt(data, at, kind);
      }
    }
  }

  lemma NoneAt(data: seq<byte>, at: nat, kind: byte)
    requires IsExtension(kind) && ExtensionLength(data, at, kind).None?
    ensures !OneAt(data, at, kind)
  {
    hide ExtensionLength, Encode;
    if OneAt(data, at, kind) {
      var x :| Valid(x) && KindOf(x) == kind && WrittenAt(data, at, Encode(x));
      WrittenIsHeader(data, at, x);
    }
  }

  /** At most seven extension headers are written from `at` on, the first of kind `kind`, and the last
      names an upper-layer header `header`, at `offset`. */
  ghost predicate Reaches(data: seq<byte>, at: nat, kind: byte, offset: nat, header: byte, xs: seq<Extension>) {
    && |xs| <= 7 && ChainAt(data, at, kind, xs)
    && offset == at + Length(xs) && header == KindBehind(kind, xs) && IsUpper(header)
  }

  ghost predicate LeadsTo(data: seq<byte>, at: nat, kind: byte, offset: nat, header: byte) {
    exists xs :: Reaches(data, at, kind, offset, header, xs)
  }

  /** The walk succeeds with an offset and a header exactly when such a chain leads there. */
  lemma WalkExactly(data: seq<byte>, at: nat, kind: byte, offset: nat, header: byte)
    ensures Skip(data, at, kind, MAX_HEADERS) == Walked(true, offset, header) <==>
            LeadsTo(data, at, kind, offset, header)
  {
    hide Skip, ChainAt, Length, KindBehind;
    if Skip(data, at, kind, MAX_HEADERS) == Walked(true, offset, header) {
      var xs := WalkIsChain(data, at, kind, MAX_HEADERS);
      assert Reaches(data, at, kind, offset, header, xs);
    }
    if xs :| Reaches(data, at, kind, offset, header, xs) {
      ChainIsWalked(data, at, kind, xs, MAX_HEADERS);
    }
  }

  /** A walk that fails stops behind the headers that are written, because there are eight of them or
      because the next one was not captured whole. */
  lemma FailedWalk(data: seq<byte>, at: nat, kind: byte) returns (xs: seq<Extension>)
    requires !Skip(data, at, kind, MAX_HEADERS).ok
    ensures var w := Skip(data, at, kind, MAX_HEADERS);
      && ChainAt(data, at, kind, xs) && w.offset == at + Length(xs) && w.header == KindBehind(kind, xs)
      && (|xs| == 8 || (|xs| < 8 && !IsUpper(w.header) && !OneAt(data, w.offset, w.header)))
  {
    hide Skip, ChainAt, Length, KindBehind, OneAt;
    xs := WalkIsChain(data, at, kind, MAX_HEADERS);
  }
}
