/** What encoded values are read as: the field a name finds in an encoded struct, its type and bytes,
    and the kind and number that each family of types makes of them. */
module Cr2wValues {
  import opened Bytes
  import opened Cr2wTypes
  import opened Cr2wStream
  import opened Cr2wEncode
  import opened Cr2wLookup
  import opened Options

  // ---------------------------------------------------------------- the field a name finds

  /** The name table holds the text at the index; past its end every text is empty. */
  predicate Spelled(f: File, index: nat, text: string) {
    if index < |f.names| then f.names[index] == text else text == ""
  }

  /** The first field of that name. */
  predicate IsFirst(f: File, fields: seq<Field>, name: string, i: nat) {
    && i < |fields| && Spelled(f, fields[i].name, name)
    && forall k :: 0 <= k < i ==> !Spelled(f, fields[k].name, name)
  }

  predicate NoneNamed(f: File, fields: seq<Field>, name: string) {
    forall k :: 0 <= k < |fields| ==> !Spelled(f, fields[k].name, name)
  }

  lemma {:induction false} NamedAmong(f: File, fields: seq<Field>, p: nat, name: string)
    ensures NoneNamed(f, fields, name) ==> FirstNamed(f, PropsAt(fields, p), name) == None
    ensures |PropsAt(fields, p)| == |fields|
    ensures forall i: nat :: IsFirst(f, fields, name, i) ==>
      FirstNamed(f, PropsAt(fields, p), name) == Some(PropsAt(fields, p)[i])
  {
    if fields != [] {
      var rest := p + 8 + |fields[0].payload|;
      var props := PropsAt(fields, p);
      assert props[1..] == PropsAt(fields[1..], rest);
      NamedAmong(f, fields[1..], rest, name);
      forall i: nat | IsFirst(f, fields, name, i)
        ensures FirstNamed(f, props, name) == Some(props[i])
      {
        if i > 0 {
          assert !Spelled(f, fields[0].name, name);
          assert IsFirst(f, fields[1..], name, i - 1);
        }
      }
    }
  }

  /** The value stands for the field: it has its type, and its bytes are the payload. */
  predicate StandsFor(f: File, v: Value, field: Field)
    requires v.lo <= v.hi <= |f.buf|
  {
    Spelled(f, field.kind, v.t) && f.buf[v.lo..v.hi] == field.payload
  }

  lemma FieldStands(f: File, lo: nat, hi: nat, item: Item, i: nat)
    requires RecordOk(item) && SizedFor(f, lo, hi) && f.buf[lo..hi] == Encode(item) && i < |item.fields|
    ensures |PropsAt(item.fields, lo + 1)| == |item.fields|
    ensures var prop := PropsAt(item.fields, lo + 1)[i];
      prop.kind == item.fields[i].kind && prop.lo <= prop.hi <= |f.buf|
      && f.buf[prop.lo..prop.hi] == item.fields[i].payload
  {
    assert Encode(item) == [0] + (EncodeFields(item.fields) + [0, 0]);
    assert Spells(f.buf, lo, Encode(item));
    SplitParts(f.buf, lo, [0], EncodeFields(item.fields) + [0, 0]);
    SplitParts(f.buf, lo + 1, EncodeFields(item.fields), [0, 0]);
    PropsAtHold(f.buf, lo + 1, item.fields, i);
  }

  lemma {:induction false} NoDot(s: string)
    requires '.' !in s
    ensures Index(s, '.') == |s|
  {
    if s != "" {
      NoDot(s[1..]);
    }
  }

  lemma OneSegment(f: File, parent: Value, name: string)
    requires parent.kind == KStruct && SizedFor(f, parent.lo, parent.hi) && name != "" && '.' !in name
    ensures GetIn(f, parent, name)
         == match Descend(f, parent.lo, parent.hi, name) case None => Err(NotFound) case Some(v) => Ok(v)
  {
    NoDot(name);
    assert name[..|name|] == name;
  }

  lemma DescendsTo(f: File, lo: nat, hi: nat, item: Item, name: string, i: nat)
    requires RecordOk(item) && SizedFor(f, lo, hi) && f.buf[lo..hi] == Encode(item)
    ensures NoneNamed(f, item.fields, name) ==> Descend(f, lo, hi, name) == None
    ensures IsFirst(f, item.fields, name, i) ==>
      && Descend(f, lo, hi, name).Some?
      && var v := Descend(f, lo, hi, name).value;
         StandsFor(f, v, item.fields[i]) && v == Decode(f, v.t, v.lo, v.hi)
  {
    StructRoundTrip(f.buf, lo, hi, item);
    NamedAmong(f, item.fields, lo + 1, name);
    if IsFirst(f, item.fields, name, i) {
      FieldStands(f, lo, hi, item, i);
    }
  }

  /** In an encoded struct a name without dots finds the first field that has it: the value's type is
      the field's and its bytes are the payload. It finds nothing exactly when no field has it. */
  lemma FieldFound(f: File, parent: Value, item: Item, name: string, i: nat)
    requires parent.kind == KStruct && SizedFor(f, parent.lo, parent.hi) && name != "" && '.' !in name
    requires RecordOk(item) && f.buf[parent.lo..parent.hi] == Encode(item)
    ensures GetIn(f, parent, name) == Err(NotFound) <==> NoneNamed(f, item.fields, name)
    ensures IsFirst(f, item.fields, name, i) ==>
      && GetIn(f, parent, name).Ok?
      && var v := GetIn(f, parent, name).value;
         v.lo <= v.hi <= |f.buf| && StandsFor(f, v, item.fields[i]) && v == Decode(f, v.t, v.lo, v.hi)
  {
    OneSegment(f, parent, name);
    DescendsTo(f, parent.lo, parent.hi, item, name, i);
    if !NoneNamed(f, item.fields, name) {
      var first := FirstOf(f, item.fields, name);
      DescendsTo(f, parent.lo, parent.hi, item, name, first);
    }
  }

  lemma {:induction false} FirstOf(f: File, fields: seq<Field>, name: string) returns (i: nat)
    requires !NoneNamed(f, fields, name)
    ensures IsFirst(f, fields, name, i)
  {
    if Spelled(f, fields[0].name, name) {
      i := 0;
    } else {
      var k :| 0 <= k < |fields| && Spelled(f, fields[k].name, name);
      assert fields[1..][k - 1] == fields[k];
      i := FirstOf(f, fields[1..], name);
      i := i + 1;
    }
  }

  // ---------------------------------------------------------------- scalar payloads

  datatype Scalar =
    | Truth(b: bool)
    | Whole(width: nat, z: int)
    | Natural(width: nat, n: nat)
    | NameIndex(n: nat)
    | Chunk(z: int)
    | Deferred(part: Option<nat>)
    | Data(part: Option<nat>)
    | Elements(count: nat)
    | Enum(n: nat)

  predicate WholeType(t: string, width: nat) {
    || (width == 1 && t == "Int8") || (width == 2 && t == "Int16")
    || (width == 4 && t == "Int32") || (width == 8 && t == "Int64")
  }

  predicate NaturalType(t: string, width: nat) {
    || (width == 1 && t == "Uint8") || (width == 2 && t == "Uint16") || (width == 4 && t == "Uint32")
    || (width == 8 && (t == "Uint64" || t == "TweakDBID"))
  }

  predicate HandleType(t: string) {
    StartsWith(t, "handle:") || StartsWith(t, "whandle:")
  }

  predicate DeferredType(t: string) {
    SameIgnoringCase(t, "SerializationDeferredDataBuffer")
  }

  /** A name of no fixed width, no text, buffer or array: an enum or a struct, by the payload. */
  predicate UnknownType(t: string) {
    && FixedWidth(t) == 0 && !IsStringType(t) && !IsArrayType(t)
    && !DeferredType(t) && t != "DataBuffer"
  }

  /** The type names and the values that a family serves. */
  predicate Typed(t: string, s: Scalar) {
    match s
    case Truth(_) => t == "Bool"
    case Whole(width, z) => WholeType(t, width) && -(Bound(width) / 2) <= z < Bound(width) / 2
    case Natural(width, n) => NaturalType(t, width) && n < Bound(width)
    case NameIndex(n) => t == "CName" && n < 0x1_0000
    case Chunk(z) => HandleType(t) && -1 <= z < 0x7FFF_FFFF
    case Deferred(part) => DeferredType(t) && (part.Some? ==> part.value < 0xFFFF)
    case Data(part) => t == "DataBuffer" && (part.Some? ==> part.value < 0x7FFF_FFFF)
    case Elements(count) => IsArrayType(t) && count < U32
    case Enum(n) => UnknownType(t) && n < 0x1_0000
  }

  /** Its bytes: little-endian, two's complement, indices one above what they name. */
  function Payload(s: Scalar): Bytes {
    match s
    case Truth(b) => [if b then 1 else 0]
    case Whole(width, n) => Le(if n < 0 then Complement(width, n) else n, width)
    case Natural(width, n) => Le(n, width)
    case NameIndex(n) => Le(n, 2)
    case Chunk(n) => Put32(if n < 0 then 0 else n + 1)
    case Deferred(part) => Le(if part.Some? then part.value + 1 else 0, 2)
    case Data(part) => Put32(if part.Some? then part.value + 0x8000_0001 else 0x8000_0000)
    case Elements(count) => Put32(count)
    case Enum(n) => Le(n, 2)
  }

  function Complement(width: nat, n: int): nat {
    if n + Bound(width) < 0 then 0 else n + Bound(width)
  }

  function KindOf(s: Scalar): Kind {
    match s
    case Truth(_) => KBool
    case Whole(_, _) => KInt
    case Natural(_, _) => KUint
    case NameIndex(_) => KName
    case Chunk(_) => KHandle
    case Deferred(part) => if part.Some? then KBuffer else KRaw
    case Data(part) => if part.Some? then KBuffer else KRaw
    case Elements(_) => KArray
    case Enum(_) => KName
  }

  function NumberOf(s: Scalar): int {
    match s
    case Truth(b) => if b then 1 else 0
    case Whole(_, n) => n
    case Natural(_, n) => n
    case NameIndex(n) => n
    case Chunk(n) => n
    case Deferred(part) => if part.Some? then part.value else 0
    case Data(part) => if part.Some? then part.value else 0
    case Elements(count) => count
    case Enum(n) => n
  }

  /** The value at [lo, hi) starts with these bytes; an enum, known only by its size, is just them. */
  predicate Holds(f: File, lo: nat, hi: nat, s: Scalar) {
    && lo <= hi <= |f.buf| && Spells(f.buf, lo, Payload(s)) && lo + |Payload(s)| <= hi
    && (s.Enum? ==> hi == lo + 2)
  }

  predicate ReadsAs(f: File, t: string, lo: nat, hi: nat, s: Scalar)
    requires lo <= hi <= |f.buf|
  {
    Decode(f, t, lo, hi).kind == KindOf(s) && Decode(f, t, lo, hi).num == NumberOf(s)
  }

  // ---------------------------------------------------------------- which family a type name is

  /** The family a scalar is to be read by. */
  function FamilyFor(s: Scalar): Family {
    match s
    case Truth(_) => Truths
    case Whole(width, _) => Wholes(width)
    case Natural(width, _) => Naturals(width)
    case NameIndex(_) => Names
    case Chunk(_) => Handles
    case Deferred(_) => DeferredBuffers
    case Data(_) => DataBuffers
    case Elements(_) => Arrays
    case Enum(_) => Others
  }

  lemma StartsDiffer(t: string, prefix: string)
    requires prefix != "" && StartsWith(t, prefix)
    ensures t != "" && t[0] == prefix[0]
  {
  }

  lemma HandlesAre(t: string)
    requires HandleType(t)
    ensures FamilyOf(t) == Handles
  {
    StartsDiffer(t, if StartsWith(t, "handle:") then "handle:" else "whandle:");
    assert "SerializationDeferredDataBuffer"[0] == 'S';
  }

  lemma DeferredAre(t: string)
    requires DeferredType(t)
    ensures FamilyOf(t) == DeferredBuffers
  {
    assert |t| == 31;
  }

  lemma ArraysAre(t: string)
    requires IsArrayType(t)
    ensures FamilyOf(t) == Arrays
  {
    var deferred := "SerializationDeferredDataBuffer";
    assert deferred[0] == 'S' && deferred[1] == 'e';
    if StartsWith(t, "array:") {
      StartsDiffer(t, "array:");
    } else if StartsWith(t, "static:") {
      StartsDiffer(t, "static:");
      assert t[1] == "static:"[1];
    }
  }

  lemma FamilyIs(t: string, s: Scalar)
    requires Typed(t, s)
    ensures FamilyOf(t) == FamilyFor(s)
  {
    match s
    case Chunk(_) => HandlesAre(t);
    case Deferred(_) => DeferredAre(t);
    case Elements(_) => ArraysAre(t);
    case _ =>
  }

  // ---------------------------------------------------------------- reading a scalar

  lemma SmallWidths()
    ensures Bound(1) == 0x100 && Bound(2) == 0x1_0000 && Bound(4) == U32 && Bound(8) == U64
  {
    Widths();
    assert Bound(1) == 256 * Bound(0);
  }

  lemma FieldRead(buf: Bytes, p: nat, v: nat, width: nat)
    requires v < Bound(width) && Spells(buf, p, Le(v, width))
    ensures Rd(buf[p..p + width]) == v
  {
    ReadBack(v, width);
  }

  /** Two's complement reads back with its sign. */
  lemma SignReads(z: int, bound: nat, v: nat)
    requires bound % 2 == 0 && -(bound / 2) <= z < bound / 2 && v == if z < 0 then z + bound else z
    ensures v < bound && Signed(v, bound) == z
  {
  }

  lemma WholeDecodes(b: Bytes, raw: Value, width: nat, v: nat)
    requires raw.lo + width <= raw.hi <= |b| && Rd(b[raw.lo..raw.lo + width]) == v
    ensures DecodeAs(b, Wholes(width), raw) == raw.(kind := KInt, num := Signed(v, Bound(width)))
  {
  }

  lemma DataDecodes(b: Bytes, raw: Value, v: nat)
    requires raw.lo + 4 <= raw.hi <= |b| && Rd32(b, raw.lo) == v
    ensures DecodeAs(b, DataBuffers, raw)
         == if v > 0x8000_0000 then raw.(kind := KBuffer, num := v - 0x8000_0001) else raw
  {
  }

  lemma EvenBound(width: nat)
    requires width > 0
    ensures Bound(width) % 2 == 0
  {
    assert Bound(width) == 2 * (128 * Bound(width - 1));
  }

  lemma WholeReads(f: File, raw: Value, s: Scalar)
    requires s.Whole? && s.width > 0 && -(Bound(s.width) / 2) <= s.z < Bound(s.width) / 2
    requires Holds(f, raw.lo, raw.hi, s)
    ensures var v := DecodeAs(f.buf, Wholes(s.width), raw); v.kind == KInt && v.num == s.z
  {
    var v: nat := if s.z < 0 then Complement(s.width, s.z) else s.z;
    EvenBound(s.width);
    SignReads(s.z, Bound(s.width), v);
    FieldRead(f.buf, raw.lo, v, s.width);
    WholeDecodes(f.buf, raw, s.width, v);
  }

  lemma NaturalDecodes(b: Bytes, raw: Value, width: nat, v: nat)
    requires raw.lo + width <= raw.hi <= |b| && Rd(b[raw.lo..raw.lo + width]) == v
    ensures DecodeAs(b, Naturals(width), raw) == raw.(kind := KUint, num := v)
  {
  }

  lemma NaturalReads(f: File, raw: Value, s: Scalar)
    requires s.Natural? && s.n < Bound(s.width) && Holds(f, raw.lo, raw.hi, s)
    ensures var v := DecodeAs(f.buf, Naturals(s.width), raw); v.kind == KUint && v.num == s.n
  {
    FieldRead(f.buf, raw.lo, s.n, s.width);
    NaturalDecodes(f.buf, raw, s.width, s.n);
  }

  lemma TruthReads(f: File, raw: Value, s: Scalar)
    requires s.Truth? && Holds(f, raw.lo, raw.hi, s)
    ensures var v := DecodeAs(f.buf, Truths, raw); v.kind == KBool && v.num == if s.b then 1 else 0
  {
    assert f.buf[raw.lo] == f.buf[raw.lo..raw.lo + 1][0];
  }

  lemma NameReads(f: File, raw: Value, s: Scalar)
    requires (s.NameIndex? || s.Enum?) && s.n < 0x1_0000 && Holds(f, raw.lo, raw.hi, s)
    ensures var v := DecodeAs(f.buf, FamilyFor(s), raw); v.kind == KName && v.num == s.n
  {
    Put16Reads(f.buf, raw.lo, s.n);
  }

  lemma HandleDecodes(b: Bytes, raw: Value, v: nat)
    requires raw.lo + 4 <= raw.hi <= |b| && Rd32(b, raw.lo) == v < 0x8000_0000
    ensures DecodeAs(b, Handles, raw) == raw.(kind := KHandle, num := v - 1)
  {
  }

  lemma ChunkReads(f: File, raw: Value, s: Scalar)
    requires s.Chunk? && -1 <= s.z < 0x7FFF_FFFF && Holds(f, raw.lo, raw.hi, s)
    ensures var v := DecodeAs(f.buf, Handles, raw); v.kind == KHandle && v.num == s.z
  {
    var v: nat := if s.z < 0 then 0 else s.z + 1;
    Put32Reads(f.buf, raw.lo, v);
    HandleDecodes(f.buf, raw, v);
  }

  lemma DeferredReads(f: File, raw: Value, s: Scalar)
    requires s.Deferred? && (s.part.Some? ==> s.part.value < 0xFFFF) && Holds(f, raw.lo, raw.hi, s)
    requires raw.kind == KRaw && raw.num == 0
    ensures var v := DecodeAs(f.buf, DeferredBuffers, raw); v.kind == KindOf(s) && v.num == NumberOf(s)
  {
    Put16Reads(f.buf, raw.lo, if s.part.Some? then s.part.value + 1 else 0);
  }

  lemma DataReads(f: File, raw: Value, s: Scalar)
    requires s.Data? && (s.part.Some? ==> s.part.value < 0x7FFF_FFFF) && Holds(f, raw.lo, raw.hi, s)
    requires raw.kind == KRaw && raw.num == 0
    ensures var v := DecodeAs(f.buf, DataBuffers, raw); v.kind == KindOf(s) && v.num == NumberOf(s)
  {
    var v := if s.part.Some? then s.part.value + 0x8000_0001 else 0x8000_0000;
    Put32Reads(f.buf, raw.lo, v);
    DataDecodes(f.buf, raw, v);
  }

  lemma ElementsRead(f: File, raw: Value, s: Scalar)
    requires s.Elements? && s.count < U32 && Holds(f, raw.lo, raw.hi, s)
    ensures var v := DecodeAs(f.buf, Arrays, raw); v.kind == KArray && v.num == s.count
  {
    Put32Reads(f.buf, raw.lo, s.count);
  }

  lemma FamilyReads(f: File, t: string, raw: Value, s: Scalar)
    requires Typed(t, s) && Holds(f, raw.lo, raw.hi, s) && raw.kind == KRaw && raw.num == 0
    ensures var v := DecodeAs(f.buf, FamilyFor(s), raw); v.kind == KindOf(s) && v.num == NumberOf(s)
  {
    match s
    case Truth(_) => TruthReads(f, raw, s);
    case Whole(_, _) => WholeReads(f, raw, s);
    case Natural(_, _) => NaturalReads(f, raw, s);
    case NameIndex(_) => NameReads(f, raw, s);
    case Chunk(_) => ChunkReads(f, raw, s);
    case Deferred(_) => DeferredReads(f, raw, s);
    case Data(_) => DataReads(f, raw, s);
    case Elements(_) => ElementsRead(f, raw, s);
    case Enum(_) => NameReads(f, raw, s);
  }

  /** Each family reads an encoded value as its own kind and as the number that was encoded. */
  lemma ScalarReads(f: File, t: string, lo: nat, hi: nat, s: Scalar)
    requires Typed(t, s) && Holds(f, lo, hi, s)
    ensures ReadsAs(f, t, lo, hi, s)
  {
    FamilyIs(t, s);
    FamilyReads(f, t, Value(KRaw, t, lo, hi, 0), s);
  }

  // ---------------------------------------------------------------- fields of a known kind

  /** A scalar field of an encoded struct is read by name as the kind and number encoded. */
  lemma ScalarFieldReads(f: File, parent: Value, item: Item, name: string, i: nat, t: string, s: Scalar)
    requires parent.kind == KStruct && SizedFor(f, parent.lo, parent.hi) && name != "" && '.' !in name
    requires RecordOk(item) && f.buf[parent.lo..parent.hi] == Encode(item) && IsFirst(f, item.fields, name, i)
    requires Typed(t, s) && Spelled(f, item.fields[i].kind, t) && item.fields[i].payload == Payload(s)
    ensures GetIn(f, parent, name).Ok?
    ensures var v := GetIn(f, parent, name).value;
      v.t == t && v.kind == KindOf(s) && v.num == NumberOf(s)
  {
    FieldFound(f, parent, item, name, i);
    var v := GetIn(f, parent, name).value;
    PayloadReads(f, t, v.lo, v.hi, s);
  }

  lemma PayloadReads(f: File, t: string, lo: nat, hi: nat, s: Scalar)
    requires Typed(t, s) && lo <= hi <= |f.buf| && f.buf[lo..hi] == Payload(s)
    ensures ReadsAs(f, t, lo, hi, s)
  {
    assert |f.buf[lo..hi]| == hi - lo;
    assert s.Enum? ==> |Payload(s)| == 2;
    ScalarReads(f, t, lo, hi, s);
  }

  /** A struct field is read as a struct whose bytes are the encoded struct, so paths go on into it. */
  lemma StructFieldReads(f: File, parent: Value, item: Item, name: string, i: nat, t: string, inner: Item)
    requires parent.kind == KStruct && SizedFor(f, parent.lo, parent.hi) && name != "" && '.' !in name
    requires RecordOk(item) && f.buf[parent.lo..parent.hi] == Encode(item) && IsFirst(f, item.fields, name, i)
    requires Spelled(f, item.fields[i].kind, t) && UnknownType(t)
    requires inner.Record? && item.fields[i].payload == Encode(inner)
    ensures GetIn(f, parent, name).Ok?
    ensures var v := GetIn(f, parent, name).value;
      v.kind == KStruct && v.lo <= v.hi <= |f.buf| && f.buf[v.lo..v.hi] == Encode(inner)
  {
    FieldFound(f, parent, item, name, i);
    var v := GetIn(f, parent, name).value;
    RecordIsStruct(f, t, v.lo, v.hi, inner);
  }

  lemma RecordIsStruct(f: File, t: string, lo: nat, hi: nat, inner: Item)
    requires UnknownType(t) && inner.Record? && lo <= hi <= |f.buf| && f.buf[lo..hi] == Encode(inner)
    ensures Decode(f, t, lo, hi).kind == KStruct
  {
    assert Encode(inner) == [0] + (EncodeFields(inner.fields) + [0, 0]);
    assert f.buf[lo..hi][0] == 0 && |f.buf[lo..hi]| >= 3;
    UnknownIsGuessed(f, t, lo, hi);
  }

  /** A text field is read as a string, and its text is the one encoded. */
  lemma TextFieldReads(f: File, parent: Value, item: Item, name: string, i: nat, t: string, text: Item)
    requires parent.kind == KStruct && SizedFor(f, parent.lo, parent.hi) && name != "" && '.' !in name
    requires RecordOk(item) && f.buf[parent.lo..parent.hi] == Encode(item) && IsFirst(f, item.fields, name, i)
    requires Spelled(f, item.fields[i].kind, t) && t in {"CString", "String", "NodeRef"}
    requires TextOk(text) && item.fields[i].payload == Encode(text)
    ensures GetIn(f, parent, name).Ok?
    ensures var v := GetIn(f, parent, name).value;
      && v.kind == KString && v.lo <= v.hi <= |f.buf|
      && DecodeText(f.buf, v.lo, v.hi) == if text.Utf8? then text.chars else Ascii(text.units)
  {
    FieldFound(f, parent, item, name, i);
    var v := GetIn(f, parent, name).value;
    TextIsString(f, v.t, v.lo, v.hi);
    TextRoundTrip(f.buf, v.lo, v.hi, text);
  }

  lemma TextIsString(f: File, t: string, lo: nat, hi: nat)
    requires IsStringType(t) && lo <= hi <= |f.buf|
    ensures Decode(f, t, lo, hi).kind == KString
  {
    assert |t| == 6 || |t| == 7;
  }

  predicate FindsStruct(f: File, parent: Value, segment: string)
    requires SizedFor(f, parent.lo, parent.hi)
  {
    && parent.kind == KStruct && segment != "" && '.' !in segment
    && GetIn(f, parent, segment).Ok? && GetIn(f, parent, segment).value.kind == KStruct
  }

  /** A value of an unknown type is told by its bytes alone: two are a name, a zero in front of at least
      three starts a struct, and anything else stays raw. */
  lemma UnknownIsGuessed(f: File, t: string, lo: nat, hi: nat)
    requires UnknownType(t) && lo <= hi <= |f.buf|
    ensures Decode(f, t, lo, hi).kind == KName <==> hi == lo + 2
    ensures Decode(f, t, lo, hi).kind == KStruct <==> hi >= lo + 3 && f.buf[lo] == 0
    ensures Decode(f, t, lo, hi).kind in {KName, KStruct, KRaw}
  {
  }

  /** The families whose numbers are not modelled: floats, and references, which are texts. */
  lemma OtherKinds(f: File, t: string, lo: nat, hi: nat)
    requires lo <= hi <= |f.buf|
    ensures (t == "Float" && lo + 4 <= hi) || (t == "Double" && lo + 8 <= hi) ==> Decode(f, t, lo, hi).kind == KFloat
    ensures ReferenceType(t) && lo + 2 <= hi ==> Decode(f, t, lo, hi).kind == KString
    ensures FixedWidth("Float") == 4 && FixedWidth("Double") == 8 && (ReferenceType(t) ==> FixedWidth(t) == 2)
  {
    if ReferenceType(t) {
      ReferencesAre(t);
    }
  }

  predicate ReferenceType(t: string) {
    StartsWith(t, "rRef:") || StartsWith(t, "raRef:")
  }

  lemma ReferencesAre(t: string)
    requires ReferenceType(t)
    ensures FamilyOf(t) == References
  {
    StartsDiffer(t, if StartsWith(t, "rRef:") then "rRef:" else "raRef:");
    assert "SerializationDeferredDataBuffer"[0] == 'S';
    HandlesStart(t);
  }

  lemma HandlesStart(t: string)
    ensures HandleType(t) ==> t != "" && (t[0] == 'h' || t[0] == 'w')
  {
    if HandleType(t) {
      StartsDiffer(t, if StartsWith(t, "handle:") then "handle:" else "whandle:");
    }
  }

  /** What is refused: asking a value that is no struct, and a path with an empty segment in front. A
      path with an empty segment at its end is refused once all before it has been found. */
  lemma RefusedPaths(f: File, parent: Value, path: string)
    requires SizedFor(f, parent.lo, parent.hi)
    ensures parent.kind != KStruct ==> GetIn(f, parent, path) == Err(Invalid)
    ensures parent.kind == KStruct ==> GetIn(f, parent, "") == Ok(parent)
    ensures parent.kind == KStruct ==> GetIn(f, parent, "." + path) == Err(Invalid)
    ensures FindsStruct(f, parent, path) ==> GetIn(f, parent, path + ".") == Err(Invalid)
  {
    assert ("." + path)[0] == '.';
    if parent.kind == KStruct && path != "" && '.' !in path {
      OneSegment(f, parent, path);
      ResolveHead(f, parent.lo, parent.hi, path, "");
      assert path + "." + "" == path + ".";
    }
  }

  /** The width a walk gives a scalar type is the length of its payload. */
  lemma WidthsAgree(t: string, s: Scalar)
    requires Typed(t, s) && (s.Truth? || s.Whole? || s.Natural? || s.NameIndex? || s.Chunk?)
    ensures FixedWidth(t) == |Payload(s)|
  {
    match s
    case Chunk(_) => HandlesAre(t);
    case _ =>
  }
}
