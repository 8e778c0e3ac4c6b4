/** The self-describing byte stream of src/cr2w.cpp: length prefixes, property streams, arrays. */
module Cr2wStream {
  import opened Bytes
  import opened Cr2wTypes
  import opened Options

  function Rd16(buf: Bytes, p: nat): nat
    requires p + 2 <= |buf|
  {
    Rd(buf[p..p + 2])
  }

  function Rd32(buf: Bytes, p: nat): nat
    requires p + 4 <= |buf|
  {
    Rd(buf[p..p + 4])
  }

  // ---------------------------------------------------------------- length prefixes

  datatype Vlq = Vlq(value: int, next: nat)

  /** The continuation octets. `scale` is two to the source's shift, so the loop's bound of 32 on
      the shift is U32 on the scale; the shifted bits are disjoint from those already read and are
      cut to 32 bits. */
  function VlqTail(buf: Bytes, p: nat, end: nat, scale: nat, value: nat, more: bool): (v: Vlq)
    requires p <= end <= |buf|
    ensures p <= v.next <= end
    decreases end - p
  {
    if !more || p >= end || scale >= U32 then Vlq(value, p)
    else
      var b := buf[p] as nat;
      VlqTail(buf, p + 1, end, scale * 128, value + ((b % 128) * scale) % U32, b >= 128)
  }

  function ReadVlq(buf: Bytes, p: nat, end: nat): (v: Vlq)
    requires p <= end <= |buf|
    ensures p <= v.next <= end
  {
    if p >= end then Vlq(0, p)
    else
      var b := buf[p] as nat;
      var tail := VlqTail(buf, p + 1, end, 64, b % 64, (b / 64) % 2 == 1);
      Vlq(if b >= 128 then -tail.value else tail.value, tail.next)
  }

  /** read_vlq: the cursor loop. */
  method ReadVlqLoop(buf: Bytes, start: nat, end: nat) returns (value: int, p: nat)
    requires start <= end <= |buf|
    ensures Vlq(value, p) == ReadVlq(buf, start, end)
  {
    p := start;
    if p >= end {
      return 0, p;
    }
    var b: nat := buf[p] as nat;
    p := p + 1;
    var negative := b >= 128;
    var magnitude: nat, scale: nat, more := b % 64, 64, (b / 64) % 2 == 1;
    while more && p < end && scale < U32
      invariant start < p <= end
      invariant VlqTail(buf, start + 1, end, 64, buf[start] as nat % 64, (buf[start] as nat / 64) % 2 == 1)
             == VlqTail(buf, p, end, scale, magnitude, more)
      decreases end - p
    {
      b := buf[p] as nat;
      p := p + 1;
      magnitude := magnitude + ((b % 128) * scale) % U32;
      scale := scale * 128;
      more := b >= 128;
    }
    value := magnitude;
    if negative {
      value := -value;
    }
  }

  /** Size in bytes of the text a prefix announces: UTF-16 when positive, UTF-8 when negative. */
  function TextBytes(prefix: int): nat {
    if prefix > 0 then 2 * prefix else -prefix
  }

  /** End of a CString, or None when the announced text does not fit. */
  function CStringEnd(buf: Bytes, p: nat, limit: nat): (e: Option<nat>)
    requires p <= limit <= |buf|
    ensures e.Some? ==> p <= e.value <= limit
  {
    var v := ReadVlq(buf, p, limit);
    if limit - v.next < TextBytes(v.value) then None else Some(v.next + TextBytes(v.value))
  }

  // ---------------------------------------------------------------- structs

  datatype Prop = Prop(name: nat, kind: nat, lo: nat, hi: nat)

  /** One step of PropWalker: the property at `p` and the cursor after it. The advance is computed
      in 32 bits, as in the source. */
  function NextProp(buf: Bytes, p: nat, end: nat): (r: Option<(Prop, nat)>)
    requires end <= |buf|
    ensures r.Some? ==> p + 8 <= r.value.0.hi <= end
  {
    if p + 8 > end then None
    else if Rd16(buf, p) == 0 || Rd32(buf, p + 4) < 4 then None
    else
      var payload := Rd32(buf, p + 4) - 4;
      if p + 8 + payload > end then None
      else Some((Prop(Rd16(buf, p), Rd16(buf, p + 2), p + 8, p + 8 + payload), p + (8 + payload) % U32))
  }

  /** Within a region a 32-bit size can describe the advance never wraps, so the walk moves on. */
  lemma AdvanceNeverWraps(buf: Bytes, p: nat, end: nat)
    requires end <= |buf| && end < p + U32
    ensures var r := NextProp(buf, p, end);
      r.Some? ==> r.value.1 == r.value.0.hi && p < r.value.1 <= end
  {
  }

  datatype Props = Props(list: seq<Prop>, stop: nat)

  /** Everything PropWalker yields from a cursor on, and where it stops. */
  function WalkProps(buf: Bytes, p: nat, end: nat): Props
    requires p <= end <= |buf| && end < p + U32
    decreases end - p
  {
    AdvanceNeverWraps(buf, p, end);
    match NextProp(buf, p, end)
    case None => Props([], p)
    case Some((prop, next)) =>
      var rest := WalkProps(buf, next, end);
      Props([prop] + rest.list, rest.stop)
  }

  /** A walk over a whole body: it starts past the leading zero. */
  function BodyProps(buf: Bytes, body: nat, end: nat): Props
    requires body <= end <= |buf| && end < body + U32
  {
    if body < end then WalkProps(buf, body + 1, end) else Props([], body)
  }

  /** struct_end from a cursor on. */
  function StructTail(buf: Bytes, p: nat, limit: nat): (e: Option<nat>)
    requires limit <= |buf|
    ensures e.Some? ==> p + 2 <= e.value <= limit
    decreases limit - p
  {
    if p + 2 > limit then None
    else if Rd16(buf, p) == 0 then Some(p + 2)
    else if p + 8 > limit || Rd32(buf, p + 4) < 4 then None
    else
      var payload := Rd32(buf, p + 4) - 4;
      if limit - (p + 8) < payload then None else StructTail(buf, p + 8 + payload, limit)
  }

  function StructEnd(buf: Bytes, body: nat, limit: nat): (e: Option<nat>)
    requires limit <= |buf|
    ensures e.Some? ==> body + 3 <= e.value <= limit
  {
    if body >= limit then None else StructTail(buf, body + 1, limit)
  }

  /** The properties struct_end steps over. */
  function Stepped(buf: Bytes, p: nat, limit: nat): seq<Prop>
    requires limit <= |buf|
    decreases limit - p
  {
    if p + 8 > limit || Rd16(buf, p) == 0 || Rd32(buf, p + 4) < 4 then []
    else
      var payload := Rd32(buf, p + 4) - 4;
      if limit - (p + 8) < payload then []
      else [Prop(Rd16(buf, p), Rd16(buf, p + 2), p + 8, p + 8 + payload)] + Stepped(buf, p + 8 + payload, limit)
  }

  /** struct_end: the loop, which checks the advance before making it. */
  method StructEndLoop(buf: Bytes, body: nat, limit: nat) returns (e: Option<nat>)
    requires limit <= |buf|
    ensures e == StructEnd(buf, body, limit)
  {
    if body >= limit {
      return None;
    }
    var p := body + 1;
    while true
      invariant StructEnd(buf, body, limit) == StructTail(buf, p, limit)
      decreases limit - p
    {
      if p + 2 > limit {
        return None;
      }
      if Rd16(buf, p) == 0 {
        return Some(p + 2);
      }
      if p + 8 > limit {
        return None;
      }
      var sz := Rd32(buf, p + 4);
      if sz < 4 {
        return None;
      }
      var payload := sz - 4;
      if limit - (p + 8) < payload {
        return None;
      }
      p := p + 8 + payload;
    }
  }

  // ---------------------------------------------------------------- arrays

  const MAX_ARRAY_DEPTH: int := 8

  /** End of an array value, or None if it cannot be measured. */
  function ArrayEnd(buf: Bytes, t: string, p: nat, limit: nat, depth: int): (e: Option<nat>)
    requires p <= limit <= |buf|
    ensures e.Some? ==> p + 4 <= e.value <= limit
    decreases MAX_ARRAY_DEPTH + 1 - depth, 1, 0
  {
    if depth > MAX_ARRAY_DEPTH || limit - p < 4 then None
    else
      var count, elem := Rd32(buf, p), ElementType(t);
      if count == 0 then Some(p + 4)
      else if FixedWidth(elem) > 0 then
        var bytes := count * FixedWidth(elem);
        if limit - (p + 4) < bytes then None else Some(p + 4 + bytes)
      else if !IsStringType(elem) && !IsArrayType(elem) then None
      else ElementsEnd(buf, elem, p + 4, limit, depth, count)
  }

  /** End of `count` text or array elements, each of which must take at least one byte. */
  function ElementsEnd(buf: Bytes, elem: string, p: nat, limit: nat, depth: int, count: nat): (e: Option<nat>)
    requires p <= limit <= |buf| && depth <= MAX_ARRAY_DEPTH
    ensures e.Some? ==> p <= e.value <= limit
    decreases MAX_ARRAY_DEPTH + 1 - depth, 0, count
  {
    if count == 0 then Some(p)
    else
      var end := ItemEnd(buf, elem, p, limit, depth);
      if end == None || end.value <= p then None
      else ElementsEnd(buf, elem, end.value, limit, depth, count - 1)
  }

  /** End of one such element. */
  function ItemEnd(buf: Bytes, elem: string, p: nat, limit: nat, depth: int): (e: Option<nat>)
    requires p <= limit <= |buf| && depth <= MAX_ARRAY_DEPTH
    ensures e.Some? ==> p <= e.value <= limit
    decreases MAX_ARRAY_DEPTH + 1 - depth, 0, 0
  {
    if IsStringType(elem) then CStringEnd(buf, p, limit) else ArrayEnd(buf, elem, p, limit, depth + 1)
  }

  /** array_end: recursive through its element loop. */
  method ArrayEndLoop(buf: Bytes, t: string, start: nat, limit: nat, depth: int) returns (e: Option<nat>)
    requires start <= limit <= |buf|
    ensures e == ArrayEnd(buf, t, start, limit, depth)
    decreases MAX_ARRAY_DEPTH + 1 - depth, 1
  {
    if depth > MAX_ARRAY_DEPTH || limit - start < 4 {
      return None;
    }
    var count := Rd32(buf, start);
    var p: nat := start + 4;
    if count == 0 {
      return Some(p);
    }
    var elem := ElementType(t);
    var w := FixedWidth(elem);
    if w > 0 {
      var bytes := count * w;
      return if limit - p < bytes then None else Some(p + bytes);
    }
    if !IsStringType(elem) && !IsArrayType(elem) {
      return None;
    }
    e := ElementsEndLoop(buf, elem, p, limit, depth, count);
  }

  /** The element loop of array_end. */
  method ElementsEndLoop(buf: Bytes, elem: string, start: nat, limit: nat, depth: int, count: nat)
    returns (e: Option<nat>)
    requires start <= limit <= |buf| && depth <= MAX_ARRAY_DEPTH
    ensures e == ElementsEnd(buf, elem, start, limit, depth, count)
    decreases MAX_ARRAY_DEPTH + 1 - depth, 0
  {
    var text := IsStringType(elem);
    var p: nat := start;
    for i := 0 to count
      invariant p <= limit
      invariant ElementsEnd(buf, elem, start, limit, depth, count)
             == ElementsEnd(buf, elem, p, limit, depth, count - i)
    {
      var end: Option<nat>;
      if text {
        end := CStringEnd(buf, p, limit);
      } else {
        end := ArrayEndLoop(buf, elem, p, limit, depth + 1);
      }
      if end == None || end.value <= p {
        return None;
      }
      p := end.value;
    }
    return Some(p);
  }

  datatype Layout = Fixed(stride: nat) | Text | Nested | Struct

  /** The layout a walk assumes: by the element's type name, and for an unknown name by whether the
      payload divides evenly. */
  function Classify(elem: string, first: nat, limit: nat, count: nat): Layout
    requires first <= limit
  {
    if FixedWidth(elem) > 0 then Fixed(FixedWidth(elem))
    else if IsStringType(elem) then Text
    else if IsArrayType(elem) then Nested
    else if count > 0 && (limit - first) % count == 0 && 1 <= (limit - first) / count <= 8
    then Fixed((limit - first) / count)
    else Struct
  }

  function ElementEnd(buf: Bytes, elem: string, layout: Layout, p: nat, limit: nat): (e: Option<nat>)
    requires p <= limit <= |buf|
    ensures e.Some? ==> p <= e.value <= limit
  {
    match layout
    case Fixed(stride) => if limit - p < stride then None else Some(p + stride)
    case Text => CStringEnd(buf, p, limit)
    case Nested => ArrayEnd(buf, elem, p, limit, 1)
    case Struct => StructEnd(buf, p, limit)
  }

  datatype Slice = Slice(lo: nat, hi: nat)

  /** A walk: whether it reached the declared count, and the slices it handed to the callback. */
  datatype Walk = Walk(ok: bool, slices: seq<Slice>)

  function WalkElements(buf: Bytes, elem: string, layout: Layout, p: nat, limit: nat, count: nat): Walk
    requires p <= limit <= |buf|
    decreases count
  {
    if count == 0 then Walk(true, [])
    else
      var end := ElementEnd(buf, elem, layout, p, limit);
      if end == None || end.value <= p then Walk(false, [])
      else
        var rest := WalkElements(buf, elem, layout, end.value, limit, count - 1);
        Walk(rest.ok, [Slice(p, end.value)] + rest.slices)
  }

  /** cr2w_walk_array over the value [lo, hi) of the given type and declared count. */
  function WalkArray(buf: Bytes, t: string, lo: nat, hi: nat, count: nat): Walk
    requires lo <= hi <= |buf|
  {
    if hi - lo < 4 then Walk(false, [])
    else
      var elem := ElementType(t);
      WalkElements(buf, elem, Classify(elem, lo + 4, hi, count), lo + 4, hi, count)
  }

  /** The switch of the walk, by layout. */
  method ElementEndLoop(buf: Bytes, elem: string, layout: Layout, p: nat, limit: nat) returns (e: Option<nat>)
    requires p <= limit <= |buf|
    ensures e == ElementEnd(buf, elem, layout, p, limit)
  {
    match layout {
      case Fixed(stride) => e := if limit - p < stride then None else Some(p + stride);
      case Text => e := CStringEnd(buf, p, limit);
      case Nested => e := ArrayEndLoop(buf, elem, p, limit, 1);
      case Struct => e := StructEndLoop(buf, p, limit);
    }
  }

  /** cr2w_walk_array: the loop, with a callback that never stops it. */
  method WalkArrayLoop(buf: Bytes, t: string, lo: nat, hi: nat, count: nat) returns (w: Walk)
    requires lo <= hi <= |buf|
    ensures w == WalkArray(buf, t, lo, hi, count)
  {
    if hi - lo < 4 {
      return Walk(false, []);
    }
    var elem := ElementType(t);
    var p: nat := lo + 4;
    var layout := Classify(elem, p, hi, count);
    var slices: seq<Slice> := [];
    ghost var whole := WalkElements(buf, elem, layout, lo + 4, hi, count);
    ghost var rest := whole;
    for i := 0 to count
      invariant p <= hi && rest == WalkElements(buf, elem, layout, p, hi, count - i)
      invariant whole == Walk(rest.ok, slices + rest.slices)
    {
      var end := ElementEndLoop(buf, elem, layout, p, hi);
      if end == None || end.value <= p {
        assert slices + [] == slices;
        return Walk(false, slices);
      }
      rest := WalkElements(buf, elem, layout, end.value, hi, count - i - 1);
      assert slices + ([Slice(p, end.value)] + rest.slices) == (slices + [Slice(p, end.value)]) + rest.slices;
      slices := slices + [Slice(p, end.value)];
      p := end.value;
    }
    assert slices + [] == slices;
    w := Walk(true, slices);
  }
}
