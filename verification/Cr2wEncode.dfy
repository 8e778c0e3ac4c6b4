/** An encoder for the values that src/cr2w.cpp reads, and the proof that single values read back. */
module Cr2wEncode {
  import opened Bytes
  import opened Cr2wTypes
  import opened Cr2wStream
  import opened Cr2wAgree
  import opened Options

  datatype Field = Field(name: nat, kind: nat, payload: Bytes)

  datatype Item =
    | Raw(bytes: Bytes)
    | Utf8(chars: Bytes)
    | Utf16(units: seq<nat>)
    | Record(fields: seq<Field>)
    | List(items: seq<Item>)

  // ---------------------------------------------------------------- encoding

  function EncodeTail(n: nat): (s: Bytes)
    ensures |s| > 0
  {
    if n < 128 then [n as byte] else [(n % 128 + 128) as byte] + EncodeTail(n / 128)
  }

  function Magnitude(prefix: int): nat {
    if prefix < 0 then -prefix else prefix
  }

  /** Sign in bit 7, continuation in bit 6, the low six bits of the magnitude. */
  function FirstOctet(prefix: int): (b: nat)
    ensures b < 256 && b % 64 == Magnitude(prefix) % 64
    ensures (b / 64) % 2 == 1 <==> Magnitude(prefix) >= 64
    ensures b >= 128 <==> prefix < 0
  {
    (if prefix < 0 then 128 else 0) + (if Magnitude(prefix) >= 64 then 64 else 0) + Magnitude(prefix) % 64
  }

  function EncodeVlq(prefix: int): (s: Bytes)
    ensures |s| > 0
  {
    var magnitude := Magnitude(prefix);
    [FirstOctet(prefix) as byte] + (if magnitude >= 64 then EncodeTail(magnitude / 64) else [])
  }

  function EncodeUnits(units: seq<nat>): (s: Bytes)
    ensures |s| == 2 * |units|
  {
    if units == [] then [] else Le(units[0], 2) + EncodeUnits(units[1..])
  }

  function EncodeField(f: Field): (s: Bytes)
    ensures |s| == 8 + |f.payload|
  {
    Le(f.name, 2) + Le(f.kind, 2) + Put32(|f.payload| + 4) + f.payload
  }

  function EncodeFields(fields: seq<Field>): (s: Bytes)
    ensures |s| >= 8 * |fields|
  {
    if fields == [] then [] else EncodeField(fields[0]) + EncodeFields(fields[1..])
  }

  function Encode(item: Item): Bytes {
    match item
    case Raw(bytes) => bytes
    case Utf8(chars) => EncodeVlq(-|chars|) + chars
    case Utf16(units) => EncodeVlq(|units|) + EncodeUnits(units)
    case Record(fields) => [0] + EncodeFields(fields) + [0, 0]
    case List(items) => Put32(|items|) + EncodeItems(items)
  }

  function EncodeItems(items: seq<Item>): Bytes {
    if items == [] then [] else Encode(items[0]) + EncodeItems(items[1..])
  }

  predicate FieldOk(f: Field) {
    0 < f.name < 0x1_0000 && f.kind < 0x1_0000 && |f.payload| + 4 < U32
  }

  predicate RecordOk(item: Item) {
    item.Record? && forall i :: 0 <= i < |item.fields| ==> FieldOk(item.fields[i])
  }

  predicate TextOk(item: Item) {
    || (item.Utf8? && |item.chars| < U32)
    || (item.Utf16? && |item.units| < U32 && forall i :: 0 <= i < |item.units| ==> item.units[i] < 0x1_0000)
  }

  // ---------------------------------------------------------------- length prefixes

  lemma Split128(n: nat, scale: nat)
    ensures (n % 128) * scale + (n / 128) * (scale * 128) == n * scale
  {
    assert n == 128 * (n / 128) + n % 128;
    calc {
      n * scale;
      (128 * (n / 128) + n % 128) * scale;
      (128 * (n / 128)) * scale + (n % 128) * scale;
      { assert (128 * (n / 128)) * scale == (n / 128) * (scale * 128); }
      (n / 128) * (scale * 128) + (n % 128) * scale;
    }
  }

  lemma NotLess(n: nat, scale: nat)
    requires n >= 1
    ensures n * scale >= scale
  {
    assert n * scale == (n - 1) * scale + scale;
  }

  /** The low seven bits and the rest, at their scales. */
  lemma TailDigit(n: nat, scale: nat, value: nat)
    requires n >= 1 && value + n * scale < U32
    ensures var low := (n % 128) * scale;
      && scale < U32 && 0 <= low < U32 && low % U32 == low
      && value + low + (n / 128) * (scale * 128) == value + n * scale
      && (n < 128 ==> low == n * scale)
  {
    Split128(n, scale);
    NotLess(n, scale);
    assert (n / 128) * (scale * 128) >= 0;
    assert (n % 128) * scale >= 0;
  }

  lemma {:induction false} TailReads(buf: Bytes, p: nat, end: nat, scale: nat, value: nat, n: nat)
    requires Spells(buf, p, EncodeTail(n)) && p + |EncodeTail(n)| <= end <= |buf|
    requires n >= 1 && scale >= 64 && value + n * scale < U32
    ensures VlqTail(buf, p, end, scale, value, true) == Vlq(value + n * scale, p + |EncodeTail(n)|)
    decreases n
  {
    var low: nat := (n % 128) * scale;
    TailDigit(n, scale, value);
    if n >= 128 {
      var tail := EncodeTail(n / 128);
      SplitParts(buf, p, [(n % 128 + 128) as byte], tail);
      TailOctet(buf, p, end, scale, value, n % 128, true);
      TailReads(buf, p + 1, end, scale * 128, value + low, n / 128);
    } else {
      TailOctet(buf, p, end, scale, value, n, false);
    }
  }

  /** One continuation octet. */
  lemma TailOctet(buf: Bytes, p: nat, end: nat, scale: nat, value: nat, digit: nat, more: bool)
    requires digit < 128 && Spells(buf, p, [(digit + if more then 128 else 0) as byte]) && p < end <= |buf|
    requires scale < U32 && digit * scale < U32
    ensures VlqTail(buf, p, end, scale, value, true)
         == VlqTail(buf, p + 1, end, scale * 128, value + digit * scale, more)
  {
    assert buf[p] == buf[p..p + 1][0];
  }

  lemma VlqReads(buf: Bytes, p: nat, end: nat, prefix: int)
    requires Spells(buf, p, EncodeVlq(prefix)) && p + |EncodeVlq(prefix)| <= end <= |buf|
    requires Magnitude(prefix) < U32
    ensures ReadVlq(buf, p, end) == Vlq(prefix, p + |EncodeVlq(prefix)|)
  {
    var enc, magnitude := EncodeVlq(prefix), Magnitude(prefix);
    assert buf[p] == buf[p..p + |enc|][0] == enc[0];
    if magnitude >= 64 {
      var tail := EncodeTail(magnitude / 64);
      SplitParts(buf, p, [enc[0]], tail);
      assert magnitude % 64 + (magnitude / 64) * 64 == magnitude;
      TailReads(buf, p + 1, end, 64, magnitude % 64, magnitude / 64);
    }
  }

  /** A text ends behind its prefix and the bytes the prefix announces. */
  lemma PrefixedReads(buf: Bytes, p: nat, limit: nat, prefix: int, body: Bytes)
    requires Magnitude(prefix) < U32 && |body| == TextBytes(prefix)
    requires Spells(buf, p, EncodeVlq(prefix) + body) && p + |EncodeVlq(prefix) + body| <= limit <= |buf|
    ensures CStringEnd(buf, p, limit) == Some(p + |EncodeVlq(prefix) + body|)
  {
    SplitParts(buf, p, EncodeVlq(prefix), body);
    VlqReads(buf, p, limit, prefix);
  }

  lemma TextReads(buf: Bytes, p: nat, limit: nat, item: Item)
    requires TextOk(item) && Spells(buf, p, Encode(item)) && p + |Encode(item)| <= limit <= |buf|
    ensures CStringEnd(buf, p, limit) == Some(p + |Encode(item)|) && |Encode(item)| > 0
  {
    match item
    case Utf8(chars) => PrefixedReads(buf, p, limit, -|chars|, chars);
    case Utf16(units) => PrefixedReads(buf, p, limit, |units|, EncodeUnits(units));
  }

  // ---------------------------------------------------------------- text values

  /** The text cr2w_decode makes of a string slice: UTF-8 bytes as they are, UTF-16 units beyond
      ASCII as question marks, and nothing when the announced text does not fit. */
  function DecodeText(buf: Bytes, lo: nat, hi: nat): Bytes
    requires lo <= hi <= |buf|
  {
    var v := ReadVlq(buf, lo, hi);
    if hi - v.next < TextBytes(v.value) then []
    else if v.value > 0 then DecodeUnits(buf, v.next, v.value)
    else buf[v.next..v.next - v.value]
  }

  function DecodeUnits(buf: Bytes, p: nat, count: nat): Bytes
    requires p + 2 * count <= |buf|
    decreases count
  {
    if count == 0 then [] else
      var unit := Rd16(buf, p);
      [if unit < 0x80 then unit as byte else 63] + DecodeUnits(buf, p + 2, count - 1)
  }

  function Ascii(units: seq<nat>): Bytes {
    if units == [] then [] else [if units[0] < 0x80 then units[0] as byte else 63] + Ascii(units[1..])
  }

  /** Units of ASCII stay, all others become question marks. */
  lemma {:induction false} AsciiIs(units: seq<nat>)
    ensures |Ascii(units)| == |units|
    ensures forall i :: 0 <= i < |units| ==> Ascii(units)[i] as int == if units[i] < 0x80 then units[i] else '?' as int
  {
    if units != [] {
      AsciiIs(units[1..]);
    }
  }

  lemma {:induction false} UnitsRead(buf: Bytes, p: nat, units: seq<nat>)
    requires Spells(buf, p, EncodeUnits(units))
    requires forall i :: 0 <= i < |units| ==> units[i] < 0x1_0000
    ensures DecodeUnits(buf, p, |units|) == Ascii(units)
    decreases |units|
  {
    if units != [] {
      Widths();
      ReadBack(units[0], 2);
      SplitParts(buf, p, Le(units[0], 2), EncodeUnits(units[1..]));
      UnitsRead(buf, p + 2, units[1..]);
    }
  }

  lemma Utf8RoundTrip(buf: Bytes, lo: nat, hi: nat, chars: Bytes)
    requires |chars| < U32 && Spells(buf, lo, Encode(Utf8(chars))) && hi == lo + |Encode(Utf8(chars))|
    ensures DecodeText(buf, lo, hi) == chars
  {
    var enc := EncodeVlq(-|chars|);
    SplitParts(buf, lo, enc, chars);
    VlqReads(buf, lo, hi, -|chars|);
  }

  lemma Utf16RoundTrip(buf: Bytes, lo: nat, hi: nat, units: seq<nat>)
    requires TextOk(Utf16(units)) && Spells(buf, lo, Encode(Utf16(units))) && hi == lo + |Encode(Utf16(units))|
    ensures DecodeText(buf, lo, hi) == Ascii(units)
  {
    var enc := EncodeVlq(|units|);
    SplitParts(buf, lo, enc, EncodeUnits(units));
    VlqReads(buf, lo, hi, |units|);
    UnitsRead(buf, lo + |enc|, units);
  }

  /** An encoded string decodes to its text: byte for byte, or unit for unit where units are ASCII. */
  lemma TextRoundTrip(buf: Bytes, lo: nat, hi: nat, item: Item)
    requires TextOk(item) && Spells(buf, lo, Encode(item)) && hi == lo + |Encode(item)|
    ensures DecodeText(buf, lo, hi) == if item.Utf8? then item.chars else Ascii(item.units)
  {
    match item
    case Utf8(chars) => Utf8RoundTrip(buf, lo, hi, chars);
    case Utf16(units) => Utf16RoundTrip(buf, lo, hi, units);
  }

  // ---------------------------------------------------------------- structs

  /** Where the properties of an encoded struct lie. */
  function PropsAt(fields: seq<Field>, p: nat): seq<Prop> {
    if fields == [] then []
    else
      var hi := p + 8 + |fields[0].payload|;
      [Prop(fields[0].name, fields[0].kind, p + 8, hi)] + PropsAt(fields[1..], hi)
  }

  lemma FieldReads(buf: Bytes, p: nat, f: Field)
    requires FieldOk(f) && Spells(buf, p, EncodeField(f))
    ensures Rd16(buf, p) == f.name && Rd16(buf, p + 2) == f.kind && Rd32(buf, p + 4) == |f.payload| + 4
    ensures buf[p + 8..p + 8 + |f.payload|] == f.payload
  {
    var name, kind, size := Le(f.name, 2), Le(f.kind, 2), Put32(|f.payload| + 4);
    FieldParts(buf, p, name, kind, size, f.payload);
    Put16Reads(buf, p, f.name);
    Put16Reads(buf, p + 2, f.kind);
    Put32Reads(buf, p + 4, |f.payload| + 4);
  }

  lemma FieldParts(buf: Bytes, p: nat, name: Bytes, kind: Bytes, size: Bytes, payload: Bytes)
    requires |name| == 2 && |kind| == 2 && |size| == 4 && Spells(buf, p, name + kind + size + payload)
    ensures Spells(buf, p, name) && Spells(buf, p + 2, kind) && Spells(buf, p + 4, size)
    ensures Spells(buf, p + 8, payload)
  {
    assert name + kind + size + payload == name + (kind + (size + payload));
    SplitParts(buf, p, name, kind + (size + payload));
    SplitParts(buf, p + 2, kind, size + payload);
    SplitParts(buf, p + 4, size, payload);
  }

  lemma TerminatorReads(buf: Bytes, p: nat, limit: nat)
    requires Spells(buf, p, [0, 0]) && p + 2 <= limit <= |buf|
    ensures StructTail(buf, p, limit) == Some(p + 2) && Stepped(buf, p, limit) == []
  {
    Widths();
    ReadBack(0, 2);
    assert Le(0, 2) == [0, 0];
  }

  lemma FieldSteps(buf: Bytes, p: nat, limit: nat, f: Field, mid: nat)
    requires FieldOk(f) && Spells(buf, p, EncodeField(f)) && mid == p + 8 + |f.payload| <= limit <= |buf|
    ensures StructTail(buf, p, limit) == StructTail(buf, mid, limit)
    ensures Stepped(buf, p, limit) == [Prop(f.name, f.kind, p + 8, mid)] + Stepped(buf, mid, limit)
  {
    FieldReads(buf, p, f);
  }

  lemma FieldsPart(buf: Bytes, p: nat, fields: seq<Field>, mid: nat)
    requires fields != [] && Spells(buf, p, EncodeFields(fields) + [0, 0]) && mid == p + 8 + |fields[0].payload|
    ensures Spells(buf, p, EncodeField(fields[0])) && Spells(buf, mid, EncodeFields(fields[1..]) + [0, 0])
    ensures p + |EncodeFields(fields)| == mid + |EncodeFields(fields[1..])|
  {
    var first, rest := EncodeField(fields[0]), EncodeFields(fields[1..]);
    assert EncodeFields(fields) + [0, 0] == first + (rest + [0, 0]);
    SplitParts(buf, p, first, rest + [0, 0]);
  }

  lemma NoFieldsRead(buf: Bytes, p: nat, limit: nat)
    requires Spells(buf, p, EncodeFields([]) + [0, 0]) && p + 2 <= limit <= |buf|
    ensures StructTail(buf, p, limit) == Some(p + 2) && Stepped(buf, p, limit) == []
  {
    assert EncodeFields([]) + [0, 0] == [0, 0];
    TerminatorReads(buf, p, limit);
  }

  lemma {:induction false} FieldsRead(buf: Bytes, p: nat, limit: nat, fields: seq<Field>, end: nat)
    requires forall i :: 0 <= i < |fields| ==> FieldOk(fields[i])
    requires Spells(buf, p, EncodeFields(fields) + [0, 0]) && end == p + |EncodeFields(fields)| + 2 <= limit <= |buf|
    ensures StructTail(buf, p, limit) == Some(end) && Stepped(buf, p, limit) == PropsAt(fields, p)
    decreases |fields|
  {
    if fields == [] {
      NoFieldsRead(buf, p, limit);
    } else {
      var mid := p + 8 + |fields[0].payload|;
      FieldsPart(buf, p, fields, mid);
      FieldSteps(buf, p, limit, fields[0], mid);
      FieldsRead(buf, mid, limit, fields[1..], end);
    }
  }

  /** An encoded struct ends where it was encoded to end, whatever follows it. */
  lemma RecordReads(buf: Bytes, p: nat, limit: nat, item: Item)
    requires RecordOk(item) && Spells(buf, p, Encode(item)) && p + |Encode(item)| <= limit <= |buf|
    ensures StructEnd(buf, p, limit) == Some(p + |Encode(item)|)
    ensures Stepped(buf, p + 1, limit) == PropsAt(item.fields, p + 1)
  {
    assert Encode(item) == [0] + (EncodeFields(item.fields) + [0, 0]);
    SplitParts(buf, p, [0], EncodeFields(item.fields) + [0, 0]);
    FieldsRead(buf, p + 1, limit, item.fields, p + |Encode(item)|);
  }

  /** Walking an encoded struct gives back exactly its properties. */
  lemma StructRoundTrip(buf: Bytes, lo: nat, hi: nat, item: Item)
    requires RecordOk(item) && lo <= hi <= |buf| && hi < lo + U32 && buf[lo..hi] == Encode(item)
    ensures BodyProps(buf, lo, hi) == Props(PropsAt(item.fields, lo + 1), hi - 2)
  {
    RecordReads(buf, lo, hi, item);
    StructAgrees(buf, lo, hi, hi);
  }

  lemma {:induction false} PropsAtHold(buf: Bytes, p: nat, fields: seq<Field>, i: nat)
    requires Spells(buf, p, EncodeFields(fields))
    requires i < |fields| && forall k :: 0 <= k < |fields| ==> FieldOk(fields[k])
    ensures |PropsAt(fields, p)| == |fields|
    ensures var prop := PropsAt(fields, p)[i];
      && prop.name == fields[i].name && prop.kind == fields[i].kind
      && prop.lo <= prop.hi <= |buf| && buf[prop.lo..prop.hi] == fields[i].payload
    decreases |fields|
  {
    var first, rest := EncodeField(fields[0]), EncodeFields(fields[1..]);
    SplitParts(buf, p, first, rest);
    FieldReads(buf, p, fields[0]);
    if i > 0 {
      PropsAtHold(buf, p + |first|, fields[1..], i - 1);
    } else {
      PropsAtLength(fields, p);
    }
  }

  lemma {:induction false} PropsAtLength(fields: seq<Field>, p: nat)
    ensures |PropsAt(fields, p)| == |fields|
  {
    if fields != [] {
      PropsAtLength(fields[1..], p + 8 + |fields[0].payload|);
    }
  }
}
