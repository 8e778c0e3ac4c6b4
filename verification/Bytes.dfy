/** Bytes, little-endian integers and NUL-terminated strings. */
module Bytes {

  newtype byte = b: int | 0 <= b < 256

  type Bytes = seq<byte>

  /** The characters of a C string: everything before its terminator. */
  type CString = s: seq<byte> | NulFree(s)

  predicate NulFree(s: seq<byte>) {
    forall i :: 0 <= i < |s| ==> s[i] != 0
  }

  /** What the source reads at `s + i`: a character, or the terminator. */
  function CharAt(s: CString, i: nat): (c: byte)
    requires i <= |s|
    ensures c == 0 <==> i == |s|
  {
    if i < |s| then s[i] else 0
  }

  function Bound(width: nat): nat {
    if width == 0 then 1 else 256 * Bound(width - 1)
  }

  function Le(v: nat, width: nat): (s: Bytes)
    ensures |s| == width
  {
    if width == 0 then [] else [(v % 256) as byte] + Le(v / 256, width - 1)
  }

  function Rd(s: Bytes): nat {
    if s == [] then 0 else s[0] as nat + 256 * Rd(s[1..])
  }

  /** Writing then reading gives the value back; a value too wide is cut to the width, as the
      source's casts cut it. */
  lemma {:induction false} ReadBack(v: nat, width: nat)
    ensures v < Bound(width) ==> Rd(Le(v, width)) == v
    ensures Rd(Le(v, width)) < Bound(width)
  {
    if width > 0 {
      ReadBack(v / 256, width - 1);
    }
  }

  lemma {:induction false} RdBound(s: Bytes)
    ensures Rd(s) < Bound(|s|)
  {
    if s != [] {
      RdBound(s[1..]);
    }
  }

  function Pow2(n: nat): (p: nat)
    ensures p > 0
  {
    if n == 0 then 1 else 2 * Pow2(n - 1)
  }

  const U32: nat := 0x1_0000_0000
  const U64: nat := 0x1_0000_0000_0000_0000

  function Put32(v: nat): (s: Bytes)
    ensures |s| == 4
  {
    Le(v % U32, 4)
  }

  function Put64(v: nat): (s: Bytes)
    ensures |s| == 8
  {
    Le(v % U64, 8)
  }

  lemma Widths()
    ensures Bound(2) == 0x1_0000 && Bound(4) == U32 && Bound(8) == U64
  {
    assert Bound(2) == 256 * 256;
    assert Bound(4) == 256 * (256 * Bound(2));
    assert Bound(6) == 256 * (256 * Bound(4));
    assert Bound(8) == 256 * (256 * Bound(6));
  }

  lemma Put32ReadBack(v: nat)
    ensures Rd(Put32(v)) == v % U32
  {
    Widths();
    ReadBack(v % U32, 4);
  }

  lemma Put64ReadBack(v: nat)
    ensures Rd(Put64(v)) == v % U64
  {
    Widths();
    ReadBack(v % U64, 8);
  }

  /** The bytes `s` stand at position `p`. */
  predicate Spells(buf: Bytes, p: nat, s: Bytes) {
    p + |s| <= |buf| && buf[p..p + |s|] == s
  }

  /** Bytes that spell two parts spell each part in its place. */
  lemma SplitParts(buf: Bytes, p: nat, first: Bytes, rest: Bytes)
    requires Spells(buf, p, first + rest)
    ensures Spells(buf, p, first) && Spells(buf, p + |first|, rest)
  {
    var whole := buf[p..p + |first| + |rest|];
    assert buf[p..p + |first|] == whole[..|first|];
    assert buf[p + |first|..p + |first| + |rest|] == whole[|first|..];
  }

  lemma Put32Reads(buf: Bytes, p: nat, v: nat)
    requires Spells(buf, p, Put32(v))
    ensures Rd(buf[p..p + 4]) == v % U32
  {
    Put32ReadBack(v);
  }

  lemma Put16Reads(buf: Bytes, p: nat, v: nat)
    requires Spells(buf, p, Le(v, 2)) && v < 0x1_0000
    ensures Rd(buf[p..p + 2]) == v
  {
    Widths();
    ReadBack(v, 2);
  }

  /** A 32-bit field followed by more bytes. */
  lemma FieldThenRest(buf: Bytes, p: nat, n: nat, rest: Bytes)
    requires n < U32 && Spells(buf, p, Put32(n) + rest)
    ensures Rd(buf[p..p + 4]) == n && Spells(buf, p + 4, rest)
  {
    SplitParts(buf, p, Put32(n), rest);
    Put32Reads(buf, p, n);
  }

  lemma PutFirst(out: Bytes, first: Bytes, rest: Bytes)
    ensures out + (first + rest) == out + first + rest
  {
  }

  /** Taking two parts apart again. */
  lemma Parts(first: Bytes, rest: Bytes)
    ensures (first + rest)[..|first|] == first && (first + rest)[|first|..] == rest
  {
  }

  /** A cut behind the first part cuts only the second. */
  lemma CutBehind(first: Bytes, rest: Bytes, n: nat)
    requires |first| <= n <= |first| + |rest|
    ensures (first + rest)[..n] == first + rest[..n - |first|]
  {
  }

  lemma ReadsFour(s: Bytes)
    requires |s| == 4
    ensures Rd(s) == s[0] as nat + 0x100 * s[1] as nat + 0x1_0000 * s[2] as nat + 0x100_0000 * s[3] as nat
  {
    assert Rd(s[3..]) == s[3] as nat + 256 * Rd(s[3..][1..]) && s[3..][1..] == [];
    assert Rd(s[2..]) == s[2] as nat + 256 * Rd(s[3..]) && s[2..][1..] == s[3..];
    assert Rd(s[1..]) == s[1] as nat + 256 * Rd(s[2..]) && s[1..][1..] == s[2..];
  }

  /** Numbers are written low byte first. */
  lemma LowByteFirst(v: nat)
    requires v < U32
    ensures var s := Put32(v);
      v == s[0] as nat + 0x100 * s[1] as nat + 0x1_0000 * s[2] as nat + 0x100_0000 * s[3] as nat
  {
    Put32ReadBack(v);
    ReadsFour(Put32(v));
  }
}
