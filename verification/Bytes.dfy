/** Captured bytes and the bounds-checked big-endian readers of src/util.c. */
module Bytes {
  type byte = x: int | 0 <= x < 0x100
  type u16 = x: int | 0 <= x < 0x1_0000
  type u32 = x: int | 0 <= x < 0x1_0000_0000

  /** The verdict of every parser (include/netscope/protocols/proto_common.h). */
  datatype Status = Ok | Truncated | Malformed | Unsupported

  datatype Option<+T> = None | Some(value: T)

  /** Something read, with the offset behind it, or the verdict that stopped the reader. */
  datatype Parsed<+T> = Parsed(value: T, next: nat) | Failed(status: Status)

  /** `[offset, offset + size)` lies inside `[0, length)`; written, as in the source, so that no
      sum of two attacker-controlled numbers is formed. */
  predicate InBounds(length: nat, offset: nat, size: nat) {
    offset <= length && size <= length - offset
  }

  function U16(data: seq<byte>, offset: nat): u16
    requires InBounds(|data|, offset, 2)
  {
    0x100 * data[offset] as int + data[offset + 1] as int
  }

  function U32(data: seq<byte>, offset: nat): u32
    requires InBounds(|data|, offset, 4)
  {
    0x1_0000 * U16(data, offset) as int + U16(data, offset + 2) as int
  }

  /** Big-endian writers, the inverses of the readers. */
  function Put16(v: u16): (bs: seq<byte>)
    ensures |bs| == 2
  {
    [v / 0x100] + [v % 0x100]
  }

  function Put32(v: u32): (bs: seq<byte>)
    ensures |bs| == 4
  {
    Put16(v / 0x1_0000) + Put16(v % 0x1_0000)
  }

  /** `bs` is found in `data` at `pos`. */
  predicate WrittenAt(data: seq<byte>, pos: nat, bs: seq<byte>) {
    pos + |bs| <= |data| && forall i :: 0 <= i < |bs| ==> data[pos + i] == bs[i]
  }

  lemma WrittenInParts(data: seq<byte>, pos: nat, a: seq<byte>, b: seq<byte>)
    requires WrittenAt(data, pos, a + b)
    ensures WrittenAt(data, pos, a) && WrittenAt(data, pos + |a|, b)
  {
    forall i | 0 <= i < |a|
      ensures data[pos + i] == a[i]
    {
      assert (a + b)[i] == a[i];
    }
    forall i | 0 <= i < |b|
      ensures data[pos + |a| + i] == b[i]
    {
      assert (a + b)[|a| + i] == b[i];
    }
  }

  lemma ReadPut16(data: seq<byte>, pos: nat, v: u16)
    requires WrittenAt(data, pos, Put16(v))
    ensures U16(data, pos) == v
  {
    assert data[pos + 0] == Put16(v)[0] && data[pos + 1] == Put16(v)[1];
  }

  lemma ReadPut32(data: seq<byte>, pos: nat, v: u32)
    requires WrittenAt(data, pos, Put32(v))
    ensures U32(data, pos) == v
  {
    WrittenInParts(data, pos, Put16(v / 0x1_0000), Put16(v % 0x1_0000));
    ReadPut16(data, pos, v / 0x1_0000);
    ReadPut16(data, pos + 2, v % 0x1_0000);
  }

  lemma PutBack(data: seq<byte>, pos: nat)
    ensures InBounds(|data|, pos, 2) ==> Put16(U16(data, pos)) == data[pos..pos + 2]
    ensures InBounds(|data|, pos, 4) ==> Put32(U32(data, pos)) == data[pos..pos + 4]
  {
    if InBounds(|data|, pos, 4) {
      var v := U32(data, pos);
      assert v / 0x1_0000 == U16(data, pos) && v % 0x1_0000 == U16(data, pos + 2);
      assert data[pos..pos + 4] == data[pos..pos + 2] + data[pos + 2..pos + 4];
    }
  }

  lemma ReadSlice(data: seq<byte>, pos: nat, bs: seq<byte>)
    requires WrittenAt(data, pos, bs)
    ensures data[pos..pos + |bs|] == bs
  {
  }

  /** The text a byte string prints as, one character per byte. */
  function Chars(bs: seq<byte>): (s: string)
    ensures |s| == |bs|
  {
    seq(|bs|, i requires 0 <= i < |bs| => bs[i] as char)
  }

  function Min(a: nat, b: nat): nat {
    if a <= b then a else b
  }

  /** What `%s` prints of a buffer: everything before the first NUL. */
  function CString(s: string): (r: string)
    ensures r <= s
    ensures forall i :: 0 <= i < |r| ==> r[i] != '\0'
    ensures |r| < |s| ==> s[|r|] == '\0'
  {
    if s == "" || s[0] == '\0' then "" else [s[0]] + CString(s[1..])
  }

  /** Copies `s` into `buf` at `pos`: memcpy, a character store or an unclamped snprintf. */
  method Put(buf: array<char>, pos: nat, s: string) returns (end: nat)
    requires pos + |s| <= buf.Length
    modifies buf
    ensures end == pos + |s|
    ensures buf[..end] == old(buf[..pos]) + s
    ensures buf[end..] == old(buf[end..])
  {
    end := pos;
    for i := 0 to |s|
      invariant end == pos + i
      invariant buf[..end] == old(buf[..pos]) + s[..i]
      invariant buf[end..] == old(buf[pos + i..])
    {
      buf[end] := s[i];
      end := end + 1;
      assert buf[..end] == buf[..end - 1] + [s[i]];
    }
  }

  /** As much of a text as a `cap`-byte buffer holds in front of its terminator. */
  function Clip(s: string, cap: nat): string
    requires cap > 0
  {
    s[..Min(|s|, cap - 1)]
  }

  /** snprintf: the text, cut to the buffer, and its terminator; nothing into an empty buffer. */
  method Print(out: array<char>, s: string) returns (n: nat)
    modifies out
    ensures out.Length > 0 ==> n < out.Length && out[..n] == Clip(s, out.Length) && out[n] == '\0'
    ensures |s| < out.Length ==> n == |s| && out[..n] == s
  {
    n := 0;
    if out.Length > 0 {
      n := Put(out, 0, s[..Min(|s|, out.Length - 1)]);
      out[n] := '\0';
    }
  }
}
