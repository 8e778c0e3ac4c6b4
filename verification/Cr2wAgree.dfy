/** Measuring and walking agree: what one reader of src/cr2w.cpp sizes, the other can visit. */
module Cr2wAgree {
  import opened Bytes
  import opened Cr2wTypes
  import opened Cr2wStream
  import opened Options

  // ---------------------------------------------------------------- structs

  /** When struct_end returns an end, PropWalker over the body up to that end yields exactly the
      properties struct_end stepped over, and stops at the terminator. */
  lemma {:induction false} TailAgrees(buf: Bytes, p: nat, limit: nat, e: nat)
    requires limit <= |buf| && StructTail(buf, p, limit) == Some(e) && e < p + U32
    ensures WalkProps(buf, p, e) == Props(Stepped(buf, p, limit), e - 2)
    decreases limit - p
  {
    AdvanceNeverWraps(buf, p, e);
    if Rd16(buf, p) != 0 {
      var payload := Rd32(buf, p + 4) - 4;
      TailAgrees(buf, p + 8 + payload, limit, e);
    }
  }

  lemma StructAgrees(buf: Bytes, body: nat, limit: nat, e: nat)
    requires limit <= |buf| && StructEnd(buf, body, limit) == Some(e) && e < body + U32
    ensures BodyProps(buf, body, e) == Props(Stepped(buf, body + 1, limit), e - 2)
    ensures e - 2 > body && Rd16(buf, e - 2) == 0
  {
    TailAgrees(buf, body + 1, limit, e);
    TailTerminates(buf, body + 1, limit);
  }

  lemma {:induction false} TailTerminates(buf: Bytes, p: nat, limit: nat)
    requires limit <= |buf| && StructTail(buf, p, limit).Some?
    ensures Rd16(buf, StructTail(buf, p, limit).value - 2) == 0
    decreases limit - p
  {
    if Rd16(buf, p) != 0 {
      TailTerminates(buf, p + 8 + (Rd32(buf, p + 4) - 4), limit);
    }
  }

  // ---------------------------------------------------------------- a smaller limit measures the same

  lemma {:induction false} VlqTailNarrows(
    buf: Bytes, p: nat, end: nat, narrower: nat, scale: nat, value: nat, more: bool)
    requires p <= narrower <= end <= |buf|
    requires VlqTail(buf, p, end, scale, value, more).next <= narrower
    ensures VlqTail(buf, p, narrower, scale, value, more) == VlqTail(buf, p, end, scale, value, more)
    decreases end - p
  {
    if more && p < end && scale < U32 {
      var b := buf[p] as nat;
      VlqTailNarrows(buf, p + 1, end, narrower, scale * 128, value + ((b % 128) * scale) % U32, b >= 128);
    }
  }

  lemma CStringNarrows(buf: Bytes, p: nat, limit: nat, narrower: nat)
    requires p <= limit <= |buf| && CStringEnd(buf, p, limit).Some?
    requires CStringEnd(buf, p, limit).value <= narrower <= limit
    ensures CStringEnd(buf, p, narrower) == CStringEnd(buf, p, limit)
  {
    if p < limit {
      var b := buf[p] as nat;
      if p < narrower {
        VlqTailNarrows(buf, p + 1, limit, narrower, 64, b % 64, (b / 64) % 2 == 1);
      }
    }
  }

  /** If array_end measures a value, it measures the same under any smaller limit that still holds
      the value and at any smaller depth. */
  lemma {:induction false} ArrayNarrows(
    buf: Bytes, t: string, p: nat, limit: nat, depth: int, narrower: nat, shallower: int)
    requires p <= limit <= |buf| && ArrayEnd(buf, t, p, limit, depth).Some?
    requires ArrayEnd(buf, t, p, limit, depth).value <= narrower <= limit && shallower <= depth
    ensures ArrayEnd(buf, t, p, narrower, shallower) == ArrayEnd(buf, t, p, limit, depth)
    decreases MAX_ARRAY_DEPTH + 1 - depth, 1, 0
  {
    var count, elem := Rd32(buf, p), ElementType(t);
    if count > 0 && FixedWidth(elem) == 0 {
      ElementsNarrow(buf, elem, p + 4, limit, depth, count, narrower, shallower);
    }
  }

  /** One element ends at the same place under a smaller limit and depth. */
  lemma ElementNarrows(
    buf: Bytes, elem: string, p: nat, limit: nat, depth: int, mid: nat, narrower: nat, shallower: int)
    requires p < mid <= narrower <= limit <= |buf| && shallower <= depth <= MAX_ARRAY_DEPTH
    requires ItemEnd(buf, elem, p, limit, depth) == Some(mid)
    ensures ItemEnd(buf, elem, p, narrower, shallower) == Some(mid)
    decreases MAX_ARRAY_DEPTH + 1 - depth, 0, 0
  {
    if IsStringType(elem) {
      CStringNarrows(buf, p, limit, narrower);
    } else {
      ArrayNarrows(buf, elem, p, limit, depth + 1, narrower, shallower + 1);
    }
  }

  lemma {:induction false} ElementsNarrow(buf: Bytes, elem: string, p: nat, limit: nat, depth: int, count: nat,
                                          narrower: nat, shallower: int)
    requires p <= limit <= |buf| && shallower <= depth <= MAX_ARRAY_DEPTH
    requires ElementsEnd(buf, elem, p, limit, depth, count).Some?
    requires ElementsEnd(buf, elem, p, limit, depth, count).value <= narrower <= limit
    ensures ElementsEnd(buf, elem, p, narrower, shallower, count) == ElementsEnd(buf, elem, p, limit, depth, count)
    decreases MAX_ARRAY_DEPTH + 1 - depth, 0, count
  {
    if count > 0 {
      var mid := ItemEnd(buf, elem, p, limit, depth).value;
      var e := ElementsEnd(buf, elem, p, limit, depth, count).value;
      ElementNarrows(buf, elem, p, limit, depth, mid, narrower, shallower);
      ElementsNarrow(buf, elem, mid, limit, depth, count - 1, narrower, shallower);
    }
  }

  // ---------------------------------------------------------------- walking what was measured

  /** Nonempty slices, end to end from `lo` to `hi`. */
  predicate Contiguous(slices: seq<Slice>, lo: nat, hi: nat) {
    if slices == [] then lo == hi
    else slices[0].lo == lo && lo < slices[0].hi && Contiguous(slices[1..], slices[0].hi, hi)
  }

  /** A string slice decodes in full: its announced text is all there, and is all there is. */
  predicate DecodesFully(buf: Bytes, lo: nat, hi: nat)
    requires lo <= hi <= |buf|
  {
    var v := ReadVlq(buf, lo, hi);
    hi - v.next == TextBytes(v.value)
  }

  ghost predicate SlicesIn(slices: seq<Slice>, buf: Bytes) {
    forall s :: s in slices ==> s.lo <= s.hi <= |buf|
  }

  /** The part of a clean walk that concerns this level alone. */
  ghost predicate CleanHere(buf: Bytes, t: string, lo: nat, hi: nat)
    requires lo <= hi <= |buf|
  {
    && hi - lo >= 4
    && var w, elem := WalkArray(buf, t, lo, hi, Rd32(buf, lo)), ElementType(t);
      && w.ok && |w.slices| == Rd32(buf, lo) && Contiguous(w.slices, lo + 4, hi) && SlicesIn(w.slices, buf)
      && (IsStringType(elem) ==> forall s :: s in w.slices ==> DecodesFully(buf, s.lo, s.hi))
  }

  /** The walk of an array value reaches its declared count in contiguous nonempty slices that end
      where the value ends, and so does the walk of every slice that is itself an array. */
  ghost predicate CleanWalk(buf: Bytes, t: string, lo: nat, hi: nat, depth: int)
    requires lo <= hi <= |buf|
    decreases MAX_ARRAY_DEPTH + 1 - depth
  {
    var elem := ElementType(t);
    && depth <= MAX_ARRAY_DEPTH && CleanHere(buf, t, lo, hi)
    && (FixedWidth(elem) == 0 && IsArrayType(elem) && !IsStringType(elem) ==>
          forall s :: s in WalkArray(buf, t, lo, hi, Rd32(buf, lo)).slices ==>
            CleanWalk(buf, elem, s.lo, s.hi, depth + 1))
  }

  lemma {:induction false} FixedWalks(buf: Bytes, elem: string, stride: nat, p: nat, limit: nat, count: nat)
    requires p <= limit <= |buf| && stride > 0 && limit - p == count * stride
    ensures var w := WalkElements(buf, elem, Fixed(stride), p, limit, count);
      w.ok && |w.slices| == count && Contiguous(w.slices, p, limit) && SlicesIn(w.slices, buf)
    decreases count
  {
    if count > 0 {
      assert count * stride == stride + (count - 1) * stride;
      assert 0 <= (count - 1) * stride;
      FixedWalks(buf, elem, stride, p + stride, limit, count - 1);
    }
  }

  /** A walk of text or array elements that reaches its count, contiguous, each element decoding or
      measuring in its own slice. */
  ghost predicate GoodWalk(buf: Bytes, elem: string, w: Walk, p: nat, e: nat, depth: int, count: nat) {
    && w.ok && |w.slices| == count && Contiguous(w.slices, p, e) && SlicesIn(w.slices, buf)
    && (IsStringType(elem) ==> forall s :: s in w.slices ==> DecodesFully(buf, s.lo, s.hi))
    && (!IsStringType(elem) ==>
          forall s :: s in w.slices ==> ArrayEnd(buf, elem, s.lo, s.hi, depth + 1) == Some(s.hi))
  }

  function ItemLayout(elem: string): Layout {
    if IsStringType(elem) then Text else Nested
  }

  /** The first element ends where it was measured to end, in the walk's slice and in its own. */
  lemma MeasuredFirst(buf: Bytes, elem: string, p: nat, limit: nat, e: nat, depth: int, mid: nat)
    requires p < mid <= e <= limit <= |buf| && 0 <= depth <= MAX_ARRAY_DEPTH
    requires ItemEnd(buf, elem, p, limit, depth) == Some(mid)
    ensures ElementEnd(buf, elem, ItemLayout(elem), p, e) == Some(mid)
    ensures IsStringType(elem) ==> DecodesFully(buf, p, mid)
    ensures !IsStringType(elem) ==> ArrayEnd(buf, elem, p, mid, depth + 1) == Some(mid)
  {
    if IsStringType(elem) {
      CStringNarrows(buf, p, limit, e);
      CStringNarrows(buf, p, limit, mid);
    } else {
      ArrayNarrows(buf, elem, p, limit, depth + 1, e, 1);
      ArrayNarrows(buf, elem, p, limit, depth + 1, mid, depth + 1);
    }
  }

  /** The elements array_end stepped over, each with its own end. */
  lemma {:induction false} MeasuredWalks(buf: Bytes, elem: string, p: nat, limit: nat, e: nat, depth: int, count: nat)
    requires p <= limit <= |buf| && 0 <= depth <= MAX_ARRAY_DEPTH
    requires ElementsEnd(buf, elem, p, limit, depth, count) == Some(e)
    ensures p <= e <= limit
    ensures GoodWalk(buf, elem, WalkElements(buf, elem, ItemLayout(elem), p, e, count), p, e, depth, count)
    decreases count
  {
    if count > 0 {
      var mid := ItemEnd(buf, elem, p, limit, depth).value;
      MeasuredFirst(buf, elem, p, limit, e, depth, mid);
      MeasuredWalks(buf, elem, mid, limit, e, depth, count - 1);
      var rest := WalkElements(buf, elem, ItemLayout(elem), mid, e, count - 1);
    }
  }

  lemma FixedWalksHere(buf: Bytes, t: string, p: nat, limit: nat, depth: int, e: nat)
    requires p <= limit <= |buf| && ArrayEnd(buf, t, p, limit, depth) == Some(e)
    requires Rd32(buf, p) == 0 || FixedWidth(ElementType(t)) > 0
    ensures CleanHere(buf, t, p, e)
  {
    var count, elem := Rd32(buf, p), ElementType(t);
    if count > 0 {
      FixedWalks(buf, elem, FixedWidth(elem), p + 4, e, count);
      if IsStringType(elem) {
        TextIsNotFixed(elem);
      }
    }
  }

  lemma TextIsNotFixed(elem: string)
    requires IsStringType(elem)
    ensures FixedWidth(elem) == 0
  {
    assert elem[0] == 'C' || elem[0] == 'S' || elem[0] == 'N';
    assert |elem| == 6 || |elem| == 7;
  }

  /** The case in which array_end measures element by element. */
  lemma MeasuredHere(buf: Bytes, t: string, p: nat, limit: nat, depth: int, e: nat)
    requires p <= limit <= |buf| && 0 <= depth && ArrayEnd(buf, t, p, limit, depth) == Some(e)
    requires Rd32(buf, p) > 0 && FixedWidth(ElementType(t)) == 0
    ensures WalkArray(buf, t, p, e, Rd32(buf, p))
         == WalkElements(buf, ElementType(t), ItemLayout(ElementType(t)), p + 4, e, Rd32(buf, p))
    ensures GoodWalk(buf, ElementType(t), WalkArray(buf, t, p, e, Rd32(buf, p)), p + 4, e, depth, Rd32(buf, p))
  {
    MeasuredWalks(buf, ElementType(t), p + 4, limit, e, depth, Rd32(buf, p));
  }

  lemma WalksHere(buf: Bytes, t: string, p: nat, limit: nat, depth: int, e: nat)
    requires p <= limit <= |buf| && 0 <= depth && ArrayEnd(buf, t, p, limit, depth) == Some(e)
    ensures CleanHere(buf, t, p, e)
    ensures var elem := ElementType(t);
      FixedWidth(elem) == 0 && IsArrayType(elem) && !IsStringType(elem) ==>
        forall s :: s in WalkArray(buf, t, p, e, Rd32(buf, p)).slices ==>
          s.lo <= s.hi <= |buf| && ArrayEnd(buf, elem, s.lo, s.hi, depth + 1) == Some(s.hi)
  {
    if Rd32(buf, p) == 0 || FixedWidth(ElementType(t)) > 0 {
      FixedWalksHere(buf, t, p, limit, depth, e);
    } else {
      MeasuredHere(buf, t, p, limit, depth, e);
    }
  }

  /** Measuring agrees with walking, at every level. */
  lemma {:induction false} MeasuringAgreesWithWalking(buf: Bytes, t: string, p: nat, limit: nat, depth: int, e: nat)
    requires p <= limit <= |buf| && 0 <= depth && ArrayEnd(buf, t, p, limit, depth) == Some(e)
    ensures CleanWalk(buf, t, p, e, depth)
    decreases MAX_ARRAY_DEPTH + 1 - depth
  {
    var elem := ElementType(t);
    var slices := WalkArray(buf, t, p, e, Rd32(buf, p)).slices;
    WalksHere(buf, t, p, limit, depth, e);
    if FixedWidth(elem) == 0 && IsArrayType(elem) && !IsStringType(elem) {
      forall s | s in slices
        ensures CleanWalk(buf, elem, s.lo, s.hi, depth + 1)
      {
        MeasuringAgreesWithWalking(buf, elem, s.lo, s.hi, depth + 1, s.hi);
      }
    }
  }

  /** Whatever a walk is given, the slices it hands over are nonempty and contiguous from behind the
      count on; it succeeds exactly when there was room for the count and it reached the declared
      number, and a failed walk has handed over fewer. */
  lemma WalkOkIff(buf: Bytes, t: string, lo: nat, hi: nat, count: nat) returns (e: nat)
    requires lo <= hi <= |buf|
    ensures var w := WalkArray(buf, t, lo, hi, count);
      && (w.ok <==> hi - lo >= 4 && |w.slices| == count) && |w.slices| <= count
      && (if hi - lo >= 4 then e <= hi && Contiguous(w.slices, lo + 4, e) else w.slices == [])
  {
    e := lo;
    if hi - lo >= 4 {
      e := ElementsWalked(buf, ElementType(t), Classify(ElementType(t), lo + 4, hi, count), lo + 4, hi, count);
    }
  }

  lemma {:induction false} ElementsWalked(buf: Bytes, elem: string, layout: Layout, p: nat, limit: nat, count: nat)
    returns (e: nat)
    requires p <= limit <= |buf|
    ensures var w := WalkElements(buf, elem, layout, p, limit, count);
      p <= e <= limit && (w.ok <==> |w.slices| == count) && |w.slices| <= count && Contiguous(w.slices, p, e)
    decreases count
  {
    e := p;
    if count > 0 {
      var end := ElementEnd(buf, elem, layout, p, limit);
      if end.Some? && end.value > p {
        e := ElementsWalked(buf, elem, layout, end.value, limit, count - 1);
        var rest := WalkElements(buf, elem, layout, end.value, limit, count - 1).slices;
        assert ([Slice(p, end.value)] + rest)[1..] == rest;
      }
    }
  }
}
