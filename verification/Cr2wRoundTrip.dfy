/** Encoding an array and walking it gives back exactly its elements. */
module Cr2wRoundTrip {
  import opened Bytes
  import opened Cr2wTypes
  import opened Cr2wStream
  import opened Cr2wEncode
  import opened Options

  // ---------------------------------------------------------------- nested values

  /** A value an enclosing array can measure: text, or an array of fixed-width values, of measurable
      values within the depth cap, or of nothing at all. */
  predicate Measurable(elem: string, item: Item, depth: int)
    decreases item
  {
    if IsStringType(elem) then TextOk(item)
    else
      && IsArrayType(elem) && item.List? && |item.items| < U32 && depth <= MAX_ARRAY_DEPTH
      && forall i :: 0 <= i < |item.items| ==>
           if FixedWidth(ElementType(elem)) > 0
           then item.items[i].Raw? && |item.items[i].bytes| == FixedWidth(ElementType(elem))
           else Measurable(ElementType(elem), item.items[i], depth + 1)
  }

  lemma {:induction false} FixedLength(items: seq<Item>, w: nat)
    requires forall i :: 0 <= i < |items| ==> |Encode(items[i])| == w
    ensures |EncodeItems(items)| == |items| * w
  {
    if items != [] {
      FixedLength(items[1..], w);
      OneMore(|items| - 1, w);
      assert |EncodeItems(items)| == |Encode(items[0])| + |EncodeItems(items[1..])|;
    }
  }

  lemma OneMore(n: nat, w: nat)
    ensures (n + 1) * w == w + n * w
  {
  }

  lemma ListHeader(buf: Bytes, p: nat, items: seq<Item>)
    requires |items| < U32 && Spells(buf, p, Encode(List(items)))
    ensures Rd32(buf, p) == |items| && Spells(buf, p + 4, EncodeItems(items))
  {
    assert Encode(List(items)) == Put32(|items|) + EncodeItems(items);
    FieldThenRest(buf, p, |items|, EncodeItems(items));
  }

  lemma ItemsPart(buf: Bytes, p: nat, items: seq<Item>)
    requires items != [] && Spells(buf, p, EncodeItems(items))
    ensures var size := |Encode(items[0])|;
      && Spells(buf, p, Encode(items[0])) && Spells(buf, p + size, EncodeItems(items[1..]))
      && |EncodeItems(items)| == size + |EncodeItems(items[1..])|
  {
    SplitParts(buf, p, Encode(items[0]), EncodeItems(items[1..]));
  }

  lemma FirstItem(buf: Bytes, p: nat, items: seq<Item>, next: nat, end: nat)
    requires items != [] && Spells(buf, p, EncodeItems(items))
    requires next == p + |Encode(items[0])| && end == p + |EncodeItems(items)|
    ensures Spells(buf, p, Encode(items[0])) && Spells(buf, next, EncodeItems(items[1..]))
    ensures next <= end == next + |EncodeItems(items[1..])|
  {
    ItemsPart(buf, p, items);
  }

  lemma ElementsStep(buf: Bytes, elem: string, p: nat, limit: nat, depth: int, count: nat, next: nat, end: nat)
    requires p < next <= limit <= |buf| && depth <= MAX_ARRAY_DEPTH && count > 0
    requires IsStringType(elem) ==> CStringEnd(buf, p, limit) == Some(next)
    requires !IsStringType(elem) ==> ArrayEnd(buf, elem, p, limit, depth + 1) == Some(next)
    requires ElementsEnd(buf, elem, next, limit, depth, count - 1) == Some(end)
    ensures ElementsEnd(buf, elem, p, limit, depth, count) == Some(end)
  {
  }

  /** array_end and cstring_end measure an encoded value exactly. */
  lemma {:induction false} MeasurableReads(buf: Bytes, elem: string, p: nat, limit: nat, depth: int, item: Item)
    requires Measurable(elem, item, depth) && Spells(buf, p, Encode(item)) && p + |Encode(item)| <= limit <= |buf|
    ensures |Encode(item)| > 0
    ensures IsStringType(elem) ==> CStringEnd(buf, p, limit) == Some(p + |Encode(item)|)
    ensures !IsStringType(elem) ==> ArrayEnd(buf, elem, p, limit, depth) == Some(p + |Encode(item)|)
    decreases item, 1
  {
    if IsStringType(elem) {
      TextReads(buf, p, limit, item);
    } else {
      var items, inner := item.items, ElementType(elem);
      ListHeader(buf, p, items);
      if items != [] && FixedWidth(inner) > 0 {
        FixedLength(items, FixedWidth(inner));
      } else if items != [] {
        assert Measurable(inner, items[0], depth + 1);
        ItemsRead(buf, inner, p + 4, limit, depth, items, p + |Encode(item)|);
      }
    }
  }

  lemma {:induction false} ItemsRead(
    buf: Bytes, elem: string, p: nat, limit: nat, depth: int, items: seq<Item>, end: nat)
    requires depth <= MAX_ARRAY_DEPTH && forall i :: 0 <= i < |items| ==> Measurable(elem, items[i], depth + 1)
    requires Spells(buf, p, EncodeItems(items)) && end == p + |EncodeItems(items)| <= limit <= |buf|
    ensures ElementsEnd(buf, elem, p, limit, depth, |items|) == Some(end)
    decreases items, 0
  {
    if items != [] {
      var next := p + |Encode(items[0])|;
      FirstItem(buf, p, items, next, end);
      MeasurableReads(buf, elem, p, limit, depth + 1, items[0]);
      ItemsRead(buf, elem, next, limit, depth, items[1..], end);
      ElementsStep(buf, elem, p, limit, depth, |items|, next, end);
    }
  }

  // ---------------------------------------------------------------- walking

  /** The slices a list of items occupies, end to end. */
  function SlicesOf(items: seq<Item>, p: nat): (slices: seq<Slice>)
    ensures |slices| == |items|
  {
    if items == [] then []
    else [Slice(p, p + |Encode(items[0])|)] + SlicesOf(items[1..], p + |Encode(items[0])|)
  }

  lemma {:induction false} SlicesHold(buf: Bytes, p: nat, items: seq<Item>, i: nat)
    requires Spells(buf, p, EncodeItems(items)) && i < |items|
    ensures Spells(buf, SlicesOf(items, p)[i].lo, Encode(items[i]))
    ensures SlicesOf(items, p)[i].hi == SlicesOf(items, p)[i].lo + |Encode(items[i])|
    decreases |items|
  {
    SplitParts(buf, p, Encode(items[0]), EncodeItems(items[1..]));
    if i > 0 {
      SlicesHold(buf, p + |Encode(items[0])|, items[1..], i - 1);
    }
  }

  /** An item the given layout reads in full. */
  predicate Readable(elem: string, layout: Layout, item: Item) {
    match layout
    case Fixed(stride) => |Encode(item)| == stride && stride > 0
    case Text => IsStringType(elem) && TextOk(item)
    case Nested => !IsStringType(elem) && Measurable(elem, item, 1)
    case Struct => RecordOk(item)
  }

  lemma ReadableReads(buf: Bytes, elem: string, layout: Layout, p: nat, limit: nat, item: Item)
    requires Readable(elem, layout, item) && Spells(buf, p, Encode(item)) && p + |Encode(item)| <= limit <= |buf|
    ensures |Encode(item)| > 0 && ElementEnd(buf, elem, layout, p, limit) == Some(p + |Encode(item)|)
  {
    match layout
    case Fixed(_) =>
    case Text => TextReads(buf, p, limit, item);
    case Nested => MeasurableReads(buf, elem, p, limit, 1, item);
    case Struct => RecordReads(buf, p, limit, item);
  }

  lemma WalkJoins(buf: Bytes, elem: string, layout: Layout, p: nat, limit: nat, items: seq<Item>, mid: nat)
    requires items != [] && mid == p + |Encode(items[0])| && p < mid <= limit <= |buf|
    requires ElementEnd(buf, elem, layout, p, limit) == Some(mid)
    requires WalkElements(buf, elem, layout, mid, limit, |items| - 1) == Walk(true, SlicesOf(items[1..], mid))
    ensures WalkElements(buf, elem, layout, p, limit, |items|) == Walk(true, SlicesOf(items, p))
  {
  }

  lemma FirstReads(buf: Bytes, elem: string, layout: Layout, p: nat, limit: nat, items: seq<Item>, mid: nat)
    requires items != [] && Readable(elem, layout, items[0]) && mid == p + |Encode(items[0])|
    requires Spells(buf, p, EncodeItems(items)) && p + |EncodeItems(items)| <= limit <= |buf|
    ensures p < mid && ElementEnd(buf, elem, layout, p, limit) == Some(mid)
    ensures Spells(buf, mid, EncodeItems(items[1..])) && mid + |EncodeItems(items[1..])| <= limit
  {
    ItemsPart(buf, p, items);
    ReadableReads(buf, elem, layout, p, limit, items[0]);
  }

  predicate AllReadable(elem: string, layout: Layout, items: seq<Item>) {
    items == [] || (Readable(elem, layout, items[0]) && AllReadable(elem, layout, items[1..]))
  }

  lemma {:induction false} EachReadable(elem: string, layout: Layout, items: seq<Item>)
    requires forall i :: 0 <= i < |items| ==> Readable(elem, layout, items[i])
    ensures AllReadable(elem, layout, items)
  {
    if items != [] {
      EachReadable(elem, layout, items[1..]);
    }
  }

  lemma {:induction false} WalksAll(buf: Bytes, elem: string, layout: Layout, p: nat, limit: nat, items: seq<Item>)
    requires AllReadable(elem, layout, items)
    requires Spells(buf, p, EncodeItems(items)) && p + |EncodeItems(items)| <= limit <= |buf|
    ensures WalkElements(buf, elem, layout, p, limit, |items|) == Walk(true, SlicesOf(items, p))
    decreases |items|
  {
    if items != [] {
      var mid := p + |Encode(items[0])|;
      FirstReads(buf, elem, layout, p, limit, items, mid);
      WalksAll(buf, elem, layout, mid, limit, items[1..]);
      WalkJoins(buf, elem, layout, p, limit, items, mid);
    }
  }

  lemma ReadableWalks(buf: Bytes, elem: string, layout: Layout, p: nat, limit: nat, items: seq<Item>)
    requires forall i :: 0 <= i < |items| ==> Readable(elem, layout, items[i])
    requires Spells(buf, p, EncodeItems(items)) && p + |EncodeItems(items)| <= limit <= |buf|
    ensures WalkElements(buf, elem, layout, p, limit, |items|) == Walk(true, SlicesOf(items, p))
  {
    EachReadable(elem, layout, items);
    WalksAll(buf, elem, layout, p, limit, items);
  }

  // ---------------------------------------------------------------- whole arrays

  /** The arrays whose layout the type name or the payload settles correctly. */
  predicate WellTyped(elem: string, items: seq<Item>) {
    if FixedWidth(elem) > 0 then
      forall i :: 0 <= i < |items| ==> items[i].Raw? && |items[i].bytes| == FixedWidth(elem)
    else if IsStringType(elem) then forall i :: 0 <= i < |items| ==> TextOk(items[i])
    else if IsArrayType(elem) then forall i :: 0 <= i < |items| ==> Measurable(elem, items[i], 1)
    else
      || (forall i :: 0 <= i < |items| ==> RecordOk(items[i]) && items[i].fields != [])
      || (forall i :: 0 <= i < |items| ==> items[i].Raw? && |items[i].bytes| == 2)
  }

  lemma {:induction false} LongItems(items: seq<Item>, least: nat)
    requires forall i :: 0 <= i < |items| ==> |Encode(items[i])| >= least
    ensures |EncodeItems(items)| >= |items| * least
  {
    if items != [] {
      LongItems(items[1..], least);
      OneMore(|items| - 1, least);
      assert |EncodeItems(items)| == |Encode(items[0])| + |EncodeItems(items[1..])|;
    }
  }

  /** The divide-evenly guess never takes an array of structs that all have a property: each takes
      at least eleven bytes, and the guess stops at eight. */
  lemma GuessSparesStructs(elem: string, items: seq<Item>, first: nat)
    requires FixedWidth(elem) == 0 && !IsStringType(elem) && !IsArrayType(elem)
    requires forall i :: 0 <= i < |items| ==> RecordOk(items[i]) && items[i].fields != []
    ensures Classify(elem, first, first + |EncodeItems(items)|, |items|) == Struct
  {
    LongItems(items, 11);
    if items != [] {
      QuotientAtLeast(|EncodeItems(items)|, |items|, 11);
    }
  }

  lemma QuotientAtLeast(a: nat, n: nat, q: nat)
    requires n > 0 && a >= n * q
    ensures a / n >= q
  {
    var d := a / n;
    assert a == n * d + a % n;
    assert d < q ==> n * (d + 1) <= n * q;
  }

  lemma GuessTakesUniform(elem: string, items: seq<Item>, first: nat, stride: nat)
    requires FixedWidth(elem) == 0 && !IsStringType(elem) && !IsArrayType(elem) && items != []
    requires 1 <= stride <= 8 && forall i :: 0 <= i < |items| ==> |Encode(items[i])| == stride
    ensures Classify(elem, first, first + |EncodeItems(items)|, |items|) == Fixed(stride)
  {
    FixedLength(items, stride);
    Quotient(|items|, stride);
  }

  lemma Quotient(n: nat, stride: nat)
    requires n > 0
    ensures (n * stride) % n == 0 && (n * stride) / n == stride
  {
    var a := n * stride;
    var d := a / n;
    assert a == n * d + a % n;
    assert d < stride ==> n * (d + 1) <= n * stride;
    assert d > stride ==> n * (stride + 1) <= n * d;
  }

  /** Walking an encoded array succeeds and its slices are exactly the encoded elements, in order. */
  lemma ArrayRoundTrip(buf: Bytes, t: string, lo: nat, items: seq<Item>)
    requires Spells(buf, lo, Encode(List(items))) && |items| < U32 && WellTyped(ElementType(t), items)
    ensures var hi, slices := lo + |Encode(List(items))|, SlicesOf(items, lo + 4);
      && Rd32(buf, lo) == |items|
      && WalkArray(buf, t, lo, hi, |items|) == Walk(true, slices)
      && forall i :: 0 <= i < |items| ==>
           Spells(buf, slices[i].lo, Encode(items[i])) && slices[i].hi == slices[i].lo + |Encode(items[i])|
  {
    var elem, hi := ElementType(t), lo + |Encode(List(items))|;
    ListHeader(buf, lo, items);
    LayoutFits(elem, items, lo + 4);
    ReadableWalks(buf, elem, Classify(elem, lo + 4, hi, |items|), lo + 4, hi, items);
    forall i | 0 <= i < |items|
      ensures Spells(buf, SlicesOf(items, lo + 4)[i].lo, Encode(items[i]))
      ensures SlicesOf(items, lo + 4)[i].hi == SlicesOf(items, lo + 4)[i].lo + |Encode(items[i])|
    {
      SlicesHold(buf, lo + 4, items, i);
    }
  }

  lemma LayoutFits(elem: string, items: seq<Item>, first: nat)
    requires WellTyped(elem, items)
    ensures var layout := Classify(elem, first, first + |EncodeItems(items)|, |items|);
      forall i :: 0 <= i < |items| ==> Readable(elem, layout, items[i])
  {
    if FixedWidth(elem) == 0 && !IsStringType(elem) && !IsArrayType(elem) && items != [] {
      if forall i :: 0 <= i < |items| ==> RecordOk(items[i]) && items[i].fields != [] {
        GuessSparesStructs(elem, items, first);
      } else {
        GuessTakesUniform(elem, items, first, 2);
      }
    }
  }

  // ---------------------------------------------------------------- structs, empty ones included

  /** When the guess takes an array of structs for an array of fixed-width values. */
  predicate GuessFires(items: seq<Item>) {
    && items != []
    && |EncodeItems(items)| % |items| == 0 && 1 <= |EncodeItems(items)| / |items| <= 8
  }

  predicate SameLengths(items: seq<Item>) {
    forall i :: 0 <= i < |items| ==> |Encode(items[i])| == |Encode(items[0])|
  }

  lemma {:induction false} FixedWalkSlices(buf: Bytes, elem: string, stride: nat, p: nat, limit: nat, items: seq<Item>)
    requires p <= limit <= |buf| && stride > 0
    requires WalkElements(buf, elem, Fixed(stride), p, limit, |items|) == Walk(true, SlicesOf(items, p))
    ensures forall i :: 0 <= i < |items| ==> |Encode(items[i])| == stride
    decreases |items|
  {
    if items != [] && limit - p >= stride {
      var rest := WalkElements(buf, elem, Fixed(stride), p + stride, limit, |items| - 1);
      var slices := SlicesOf(items[1..], p + |Encode(items[0])|);
      assert ([Slice(p, p + stride)] + rest.slices)[0] == SlicesOf(items, p)[0];
      assert ([Slice(p, p + stride)] + rest.slices)[1..] == rest.slices && SlicesOf(items, p)[1..] == slices;
      FixedWalkSlices(buf, elem, stride, p + stride, limit, items[1..]);
    }
  }

  /** An array of structs, empty ones included, walks to exactly its elements if and only if the
      guess does not take it or its elements all have the same length. */
  lemma StructArrayWalksIff(buf: Bytes, t: string, lo: nat, items: seq<Item>)
    requires Spells(buf, lo, Encode(List(items))) && |items| < U32
    requires var elem := ElementType(t); FixedWidth(elem) == 0 && !IsStringType(elem) && !IsArrayType(elem)
    requires forall i :: 0 <= i < |items| ==> RecordOk(items[i])
    ensures WalkArray(buf, t, lo, lo + |Encode(List(items))|, |items|) == Walk(true, SlicesOf(items, lo + 4))
       <==> !GuessFires(items) || SameLengths(items)
  {
    var elem, hi := ElementType(t), lo + |Encode(List(items))|;
    ListWalk(buf, t, lo, items, hi);
    if !GuessFires(items) {
      UnguessedWalk(buf, elem, lo + 4, hi, items);
    } else if SameLengths(items) {
      SameLengthsWalk(buf, elem, lo + 4, hi, items);
    } else {
      GuessedWalk(buf, elem, lo + 4, hi, items);
    }
  }

  /** Walking an encoded array is walking its elements behind the count. */
  lemma ListWalk(buf: Bytes, t: string, lo: nat, items: seq<Item>, hi: nat)
    requires |items| < U32 && Spells(buf, lo, Encode(List(items))) && hi == lo + |Encode(List(items))|
    ensures Spells(buf, lo + 4, EncodeItems(items)) && hi == lo + 4 + |EncodeItems(items)| <= |buf|
    ensures var elem := ElementType(t);
      WalkArray(buf, t, lo, hi, |items|)
      == WalkElements(buf, elem, Classify(elem, lo + 4, hi, |items|), lo + 4, hi, |items|)
  {
    ListHeader(buf, lo, items);
  }

  lemma UnguessedWalk(buf: Bytes, elem: string, p: nat, limit: nat, items: seq<Item>)
    requires Spells(buf, p, EncodeItems(items)) && limit == p + |EncodeItems(items)|
    requires FixedWidth(elem) == 0 && !IsStringType(elem) && !IsArrayType(elem) && !GuessFires(items)
    requires forall i :: 0 <= i < |items| ==> RecordOk(items[i])
    ensures WalkElements(buf, elem, Classify(elem, p, limit, |items|), p, limit, |items|)
         == Walk(true, SlicesOf(items, p))
  {
    ReadableWalks(buf, elem, Struct, p, limit, items);
  }

  lemma GuessedWalk(buf: Bytes, elem: string, p: nat, limit: nat, items: seq<Item>)
    requires Spells(buf, p, EncodeItems(items)) && limit == p + |EncodeItems(items)|
    requires FixedWidth(elem) == 0 && !IsStringType(elem) && !IsArrayType(elem)
    requires GuessFires(items) && !SameLengths(items)
    ensures WalkElements(buf, elem, Classify(elem, p, limit, |items|), p, limit, |items|)
         != Walk(true, SlicesOf(items, p))
  {
    var stride := |EncodeItems(items)| / |items|;
    if WalkElements(buf, elem, Fixed(stride), p, limit, |items|) == Walk(true, SlicesOf(items, p)) {
      FixedWalkSlices(buf, elem, stride, p, limit, items);
    }
  }

  lemma SameLengthsWalk(buf: Bytes, elem: string, p: nat, limit: nat, items: seq<Item>)
    requires Spells(buf, p, EncodeItems(items)) && limit == p + |EncodeItems(items)|
    requires FixedWidth(elem) == 0 && !IsStringType(elem) && !IsArrayType(elem)
    requires GuessFires(items) && SameLengths(items)
    ensures WalkElements(buf, elem, Classify(elem, p, limit, |items|), p, limit, |items|)
         == Walk(true, SlicesOf(items, p))
  {
    var stride := |Encode(items[0])|;
    FixedLength(items, stride);
    Quotient(|items|, stride);
    ReadableWalks(buf, elem, Fixed(stride), p, limit, items);
  }

  /** The failing family has members: an empty struct beside one of thirteen bytes. */
  lemma MixedStructsAreMisread()
    ensures var items := [Record([]), Record([Field(1, 1, [7, 7])])];
      && RecordOk(items[0]) && RecordOk(items[1]) && GuessFires(items) && !SameLengths(items)
  {
    var empty, full := Record([]), Record([Field(1, 1, [7, 7])]);
    var items := [empty, full];
    assert |Encode(empty)| == 3;
    assert EncodeFields([Field(1, 1, [7, 7])]) == EncodeField(Field(1, 1, [7, 7])) + EncodeFields([]);
    assert |Encode(full)| == 13;
    assert items[1..] == [full] && [full][1..] == [];
    assert EncodeItems([full]) == Encode(full) + EncodeItems([]);
    assert EncodeItems(items) == Encode(empty) + EncodeItems([full]);
  }
}
