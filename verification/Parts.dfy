/** Part reads of src/archive.cpp (resolve_part, read_part) and the file facts of src/api.cpp
    (fill_info): which segments a part names, what reading it copies, and what a stat says of it. */
module Parts {
  import opened Bytes
  import opened Depot
  import opened Options

  const PART_MAIN: nat := 0xFFFF_FFFF
  const PART_ALL: nat := 0xFFFF_FFFE

  datatype Error = NotFound | Corrupt | OutOfRange | Cancelled | Decode(status: int)

  datatype Result<T> = Ok(value: T) | Err(error: Error)

  datatype Range = Range(first: nat, last: nat)

  /** Decoding a segment is foreign code: it fails, or fills exactly the segment's size. */
  type Decoder = Segment -> Result<Bytes>

  ghost predicate FillsItsSize(decode: Decoder) {
    forall s :: decode(s).Ok? ==> |decode(s).value| == s.size
  }

  // ---------------------------------------------------------------- resolve

  /** The segments that a 32-bit part number names; the sum is 64 bits wide and cannot wrap. */
  function Resolve(a: Archive, e: Entry, part: nat): (r: Result<Range>)
    requires part < U32
    ensures r.Ok? ==> r.value.first < r.value.last <= |a.segments|
  {
    if e.first >= e.last || e.last > |a.segments| then Err(Corrupt)
    else if part == PART_ALL then Ok(Range(e.first, e.last))
    else if part == PART_MAIN then Ok(Range(e.first, e.first + 1))
    else
      var seg := e.first + 1 + part;
      if seg >= e.last then Err(OutOfRange) else Ok(Range(seg, seg + 1))
  }

  datatype Located = Located(ref: Ref, range: Range)

  /** resolve_part: the last mounted entry of the hash, then its segments. */
  function ResolvePart(archives: seq<Archive>, hash: Hash, part: nat): Result<Located>
    requires part < U32
  {
    LastMountWins(archives, hash);
    match Find(archives, hash)
    case None => Err(NotFound)
    case Some(ref) =>
      match Resolve(archives[ref.archive], archives[ref.archive].entries[ref.entry], part)
      case Ok(range) => Ok(Located(ref, range))
      case Err(error) => Err(error)
  }

  /** A part is not found exactly when no archive holds the hash; a part found is read from the last
      archive that does, and an earlier copy never stands in for one that is damaged. */
  lemma PartOfLastMount(archives: seq<Archive>, hash: Hash, part: nat, ref: Ref)
    requires part < U32
    ensures ResolvePart(archives, hash, part) == Err(NotFound)
       <==> forall a :: 0 <= a < |archives| ==> !Holds(archives[a], hash)
    ensures Wins(archives, hash, ref) ==>
      ResolvePart(archives, hash, part)
      == match Resolve(archives[ref.archive], archives[ref.archive].entries[ref.entry], part)
         case Ok(range) => Ok(Located(ref, range))
         case Err(error) => Err(error)
  {
    LastMountWins(archives, hash);
    if Find(archives, hash).Some? {
      assert Holds(archives[Find(archives, hash).value.archive], hash);
    }
    if Wins(archives, hash, ref) {
      OneAnswer(archives, hash, Find(archives, hash), Some(ref));
    }
  }

  // ---------------------------------------------------------------- stat

  datatype Info = Info(buffers: nat, size: nat, compressed: nat)

  /** The range a stat works on: cut to the segments there are. */
  function Clamped(a: Archive, e: Entry): (r: Range)
    ensures r.first <= r.last
  {
    var last := if e.last > |a.segments| then |a.segments| else e.last;
    Range(e.first, if last < e.first then e.first else last)
  }

  function Total(segments: seq<Segment>): nat {
    if segments == [] then 0 else Total(segments[..|segments| - 1]) + segments[|segments| - 1].size
  }

  function TotalCompressed(segments: seq<Segment>): nat {
    if segments == [] then 0
    else TotalCompressed(segments[..|segments| - 1]) + segments[|segments| - 1].zsize
  }

  function SegmentsIn(a: Archive, r: Range): seq<Segment> {
    if r.first <= r.last <= |a.segments| then a.segments[r.first..r.last] else []
  }

  function Stat(a: Archive, e: Entry): Info {
    var r := Clamped(a, e);
    var segments := SegmentsIn(a, r);
    Info(if r.last > r.first then r.last - r.first - 1 else 0, Total(segments), TotalCompressed(segments))
  }

  /** One more segment at the end of a run. */
  lemma NextSegment(segments: seq<Segment>, first: nat, i: nat)
    requires first <= i < |segments|
    ensures Total(segments[first..i + 1]) == Total(segments[first..i]) + segments[i].size
    ensures TotalCompressed(segments[first..i + 1]) == TotalCompressed(segments[first..i]) + segments[i].zsize
  {
    assert segments[first..i + 1][..i - first] == segments[first..i];
  }

  method FillInfo(a: Archive, e: Entry) returns (info: Info)
    ensures info == Stat(a, e)
  {
    var first: nat, last: nat := e.first, e.last;
    if last > |a.segments| {
      last := |a.segments|;
    }
    if last < first {
      last := first;
    }
    var buffers := if last > first then last - first - 1 else 0;
    var size: nat, compressed: nat := 0, 0;
    for i := first to last
      invariant if first == last then size == compressed == 0
        else size == Total(a.segments[first..i]) && compressed == TotalCompressed(a.segments[first..i])
    {
      NextSegment(a.segments, first, i);
      size := size + a.segments[i].size;
      compressed := compressed + a.segments[i].zsize;
    }
    info := Info(buffers, size, compressed);
  }

  /** The segments from `i` up to `last` that exist, added up by what `pick` takes of each. */
  function SumFrom(a: Archive, i: nat, last: nat, pick: Segment -> nat): nat
    decreases last - i
  {
    if i >= last || i >= |a.segments| then 0 else pick(a.segments[i]) + SumFrom(a, i + 1, last, pick)
  }

  lemma {:induction false} TotalsAdd(segments: seq<Segment>)
    requires segments != []
    ensures Total(segments) == segments[0].size + Total(segments[1..])
    ensures TotalCompressed(segments) == segments[0].zsize + TotalCompressed(segments[1..])
  {
    var n := |segments| - 1;
    if n > 0 {
      TotalsAdd(segments[..n]);
      assert segments[..n][1..] == segments[1..][..n - 1];
    }
  }

  lemma {:induction false} TotalsAre(a: Archive, first: nat, last: nat)
    requires first <= last <= |a.segments|
    ensures Total(a.segments[first..last]) == SumFrom(a, first, last, (s: Segment) => s.size)
    ensures TotalCompressed(a.segments[first..last]) == SumFrom(a, first, last, (s: Segment) => s.zsize)
    decreases last - first
  {
    if first < last {
      TotalsAdd(a.segments[first..last]);
      assert a.segments[first..last][1..] == a.segments[first + 1..last];
      TotalsAre(a, first + 1, last);
    }
  }

  /** A stat counts the segments of the entry that exist, all but the main one as buffers, and adds up
      their sizes, and apart from that their compressed sizes. */
  lemma StatAddsUp(a: Archive, e: Entry)
    ensures var info := Stat(a, e);
      && info.size == SumFrom(a, e.first, e.last, (s: Segment) => s.size)
      && info.compressed == SumFrom(a, e.first, e.last, (s: Segment) => s.zsize)
      && (if e.first < e.last && e.first < |a.segments|
          then e.first + 1 + info.buffers == e.last || (e.first + 1 + info.buffers == |a.segments| < e.last)
          else info.buffers == 0)
  {
    var r := Clamped(a, e);
    if r.first <= r.last <= |a.segments| {
      TotalsAre(a, r.first, r.last);
      ClampedSum(a, e.first, e.last, r.last, (s: Segment) => s.size);
      ClampedSum(a, e.first, e.last, r.last, (s: Segment) => s.zsize);
    }
  }

  lemma {:induction false} ClampedSum(a: Archive, first: nat, last: nat, clamped: nat, pick: Segment -> nat)
    requires clamped == last || |a.segments| == clamped < last || (clamped == first && last <= first)
    ensures SumFrom(a, first, last, pick) == SumFrom(a, first, clamped, pick)
    decreases last - first
  {
    if first < last && first < |a.segments| {
      ClampedSum(a, first + 1, last, clamped, pick);
    }
  }

  // ---------------------------------------------------------------- read

  /** Bytes followed by more bytes, or the first failure. */
  function Then(before: Result<Bytes>, now: Result<Bytes>): Result<Bytes> {
    if before.Err? then before else if now.Err? then now else Ok(before.value + now.value)
  }

  /** The segments decoded one after the other, or the first failure. */
  function Payload(segments: seq<Segment>, decode: Decoder): Result<Bytes> {
    if segments == [] then Ok([])
    else Then(Payload(segments[..|segments| - 1], decode), decode(segments[|segments| - 1]))
  }

  lemma {:induction false} PayloadFillsTotal(segments: seq<Segment>, decode: Decoder)
    requires FillsItsSize(decode)
    ensures var p := Payload(segments, decode); p.Ok? ==> |p.value| == Total(segments)
  {
    if segments != [] {
      PayloadFillsTotal(segments[..|segments| - 1], decode);
    }
  }

  lemma NextPayload(segments: seq<Segment>, first: nat, i: nat, decode: Decoder)
    requires first <= i < |segments|
    ensures Payload(segments[first..i + 1], decode) == Then(Payload(segments[first..i], decode), decode(segments[i]))
  {
    assert segments[first..i + 1][..i - first] == segments[first..i];
  }

  lemma {:induction false} TotalGrows(segments: seq<Segment>, first: nat, i: nat, last: nat)
    requires first <= i <= last <= |segments|
    ensures Total(segments[first..i]) <= Total(segments[first..last])
    decreases last
  {
    if i < last {
      TotalGrows(segments, first, i, last - 1);
      NextSegment(segments, first, last - 1);
    }
  }

  lemma {:induction false} FailureStays(segments: seq<Segment>, first: nat, i: nat, last: nat, decode: Decoder)
    requires first <= i <= last <= |segments| && Payload(segments[first..i], decode).Err?
    ensures Payload(segments[first..last], decode) == Payload(segments[first..i], decode)
    decreases last
  {
    if i < last {
      FailureStays(segments, first, i, last - 1, decode);
      NextPayload(segments, first, last - 1, decode);
    }
  }

  /** The sizing loop. */
  method Measure(a: Archive, r: Range) returns (total: nat)
    requires r.first <= r.last <= |a.segments|
    ensures total == Total(a.segments[r.first..r.last])
  {
    total := 0;
    for i := r.first to r.last
      invariant total == Total(a.segments[r.first..i])
    {
      NextSegment(a.segments, r.first, i);
      total := total + a.segments[i].size;
    }
  }

  /** One more segment copied: it fits what is left of the buffer, and it fails where decoding does. */
  lemma OneMoreCopied(segments: seq<Segment>, r: Range, i: nat, capacity: nat, decode: Decoder, dst: Bytes)
    requires r.first <= i < r.last <= |segments| && FillsItsSize(decode)
    requires Total(segments[r.first..r.last]) <= capacity && Payload(segments[r.first..i], decode) == Ok(dst)
    ensures segments[i].size <= capacity - |dst|
    ensures var now := decode(segments[i]);
      && (now.Err? ==> forall j :: i < j <= r.last ==> Payload(segments[r.first..j], decode) == now)
      && (now.Ok? ==> Payload(segments[r.first..i + 1], decode) == Ok(dst + now.value))
  {
    PayloadFillsTotal(segments[r.first..i], decode);
    NextSegment(segments, r.first, i);
    TotalGrows(segments, r.first, i + 1, r.last);
    NextPayload(segments, r.first, i, decode);
    if decode(segments[i]).Err? {
      forall j | i < j <= r.last
        ensures Payload(segments[r.first..j], decode) == decode(segments[i])
      {
        FailureStays(segments, r.first, i + 1, j, decode);
      }
    }
  }

  /** The first segment at which the flag is seen. */
  predicate FirstAbort(r: Range, abort: nat -> bool, i: nat) {
    r.first <= i < r.last && abort(i) && forall k :: r.first <= k < i ==> !abort(k)
  }

  /** What a copy gives: the whole part or its first failure; or a cancellation at the first segment
      at which the flag is seen, unless a segment before it has failed. */
  ghost predicate CopyGives(out: Result<Bytes>, segments: seq<Segment>, r: Range, decode: Decoder, abort: nat -> bool)
    requires r.first <= r.last <= |segments|
  {
    && ((forall k :: r.first <= k < r.last ==> !abort(k)) ==> out == Payload(segments[r.first..r.last], decode))
    && forall i: nat :: FirstAbort(r, abort, i) ==>
         out == if Payload(segments[r.first..i], decode).Err? then Payload(segments[r.first..i], decode)
                else Err(Cancelled)
  }

  /** The copying loop; `abort(i)` is the flag as read before segment `i`. What it gives back is whole
      or nothing, and without an abort it fails only where decoding does. */
  method CopySegments(a: Archive, r: Range, capacity: nat, decode: Decoder, abort: nat -> bool)
    returns (out: Result<Bytes>)
    requires r.first <= r.last <= |a.segments| && FillsItsSize(decode)
    requires Total(a.segments[r.first..r.last]) <= capacity
    ensures CopyGives(out, a.segments, r, decode, abort)
  {
    var dst: Bytes := [];
    for i := r.first to r.last
      invariant Payload(a.segments[r.first..i], decode) == Ok(dst)
      invariant forall k :: r.first <= k < i ==> !abort(k)
    {
      if abort(i) {
        return Err(Cancelled);
      }
      var seg := a.segments[i];
      OneMoreCopied(a.segments, r, i, capacity, decode, dst);
      if seg.size > capacity - |dst| {
        return Err(OutOfRange);
      }
      var bytes := decode(seg);
      if bytes.Err? {
        return bytes;
      }
      dst := dst + bytes.value;
    }
    out := Ok(dst);
  }

  datatype Read = Read(total: nat, result: Result<Bytes>)

  /** read_part on a located entry: without a buffer it only measures. */
  method ReadPart(a: Archive, e: Entry, part: nat, buffer: Option<nat>, decode: Decoder, abort: nat -> bool)
    returns (read: Read)
    requires part < U32 && FillsItsSize(decode)
    ensures var r := Resolve(a, e, part);
      if r.Err? then read == Read(0, Err(r.error))
      else
        var segments := SegmentsIn(a, r.value);
        && read.total == Total(segments)
        && match buffer
           case None => read.result == Ok([])
           case Some(capacity) =>
             if capacity < Total(segments) then read.result == Err(OutOfRange)
             else CopyGives(read.result, a.segments, r.value, decode, abort)
  {
    var r := Resolve(a, e, part);
    if r.Err? {
      return Read(0, Err(r.error));
    }
    var total := Measure(a, r.value);
    match buffer
    case None =>
      read := Read(total, Ok([]));
    case Some(capacity) =>
      if capacity < total {
        return Read(total, Err(OutOfRange));
      }
      var out := CopySegments(a, r.value, capacity, decode, abort);
      read := Read(total, out);
  }

  // ---------------------------------------------------------------- parts agree

  /** A part never names a segment outside its own file, whatever number the caller passes. */
  lemma ResolveStaysInside(a: Archive, e: Entry, part: nat)
    requires part < U32
    ensures var r := Resolve(a, e, part);
      r.Ok? ==> e.first <= r.value.first < r.value.last <= e.last <= |a.segments|
  {
  }

  /** An attached buffer resolves exactly when a stat counts it and the entry's range ends within the
      segment table. The second half is the guard of resolve_part that a stat replaces by a clamp. */
  lemma BufferResolvesIff(a: Archive, e: Entry, i: nat)
    requires i < PART_ALL
    ensures Resolve(a, e, i).Ok? <==> i < Stat(a, e).buffers && e.last <= |a.segments|
    ensures Resolve(a, e, i) == Err(Corrupt) <==> !(e.first < e.last <= |a.segments|)
    ensures Resolve(a, e, i) == Err(OutOfRange) <==> e.first < e.last <= |a.segments| && i >= Stat(a, e).buffers
  {
  }

  /** The main part and everything resolve exactly for entries whose range is sound. */
  lemma WholeResolvesIff(a: Archive, e: Entry)
    ensures Resolve(a, e, PART_ALL).Ok? || Resolve(a, e, PART_ALL) == Err(Corrupt)
    ensures Resolve(a, e, PART_MAIN).Ok? || Resolve(a, e, PART_MAIN) == Err(Corrupt)
    ensures Resolve(a, e, PART_ALL).Ok? <==> e.first < e.last <= |a.segments|
    ensures Resolve(a, e, PART_MAIN).Ok? <==> e.first < e.last <= |a.segments|
  {
  }

  /** Which segments a part number names on a sound range: all of them, the first, or the one so many
      behind it. */
  lemma PartNumbers(a: Archive, e: Entry, i: nat)
    requires e.first < e.last <= |a.segments|
    ensures Resolve(a, e, 0xFFFF_FFFE) == Ok(Range(e.first, e.last))
    ensures Resolve(a, e, 0xFFFF_FFFF) == Ok(Range(e.first, e.first + 1))
    ensures i < 0xFFFF_FFFE && e.first + 1 + i < e.last ==>
      Resolve(a, e, i) == Ok(Range(e.first + 1 + i, e.first + 2 + i))
  {
  }

  /** A stat can count buffers that do not resolve: an entry whose range ends past the table. */
  lemma StatOverstatesBadRange()
    ensures var a, e := Archive([], [Segment(0, 1, 1), Segment(1, 1, 1)]), Entry(7, 0, 3);
      Stat(a, e).buffers == 1 && Resolve(a, e, 0) == Err(Corrupt)
  {
  }

  /** What reading one part gives, when nothing aborts it. */
  function PartBytes(a: Archive, e: Entry, part: nat, decode: Decoder): Result<Bytes>
    requires part < U32
  {
    var r := Resolve(a, e, part);
    if r.Err? then Err(r.error) else Payload(SegmentsIn(a, r.value), decode)
  }

  /** Several pieces one after the other, or the first failure. */
  function Joined(pieces: seq<Result<Bytes>>): Result<Bytes> {
    if pieces == [] then Ok([]) else Then(Joined(pieces[..|pieces| - 1]), pieces[|pieces| - 1])
  }

  /** The main part, then the first `n` buffers. */
  function MainAndBuffers(a: Archive, e: Entry, n: nat, decode: Decoder): seq<Result<Bytes>>
    requires n <= PART_ALL
  {
    seq(n + 1, i requires 0 <= i <= n => PartBytes(a, e, if i == 0 then PART_MAIN else i - 1, decode))
  }

  function Decoded(segments: seq<Segment>, decode: Decoder): seq<Result<Bytes>> {
    seq(|segments|, i requires 0 <= i < |segments| => decode(segments[i]))
  }

  lemma {:induction false} PayloadIsJoined(segments: seq<Segment>, decode: Decoder)
    ensures Payload(segments, decode) == Joined(Decoded(segments, decode))
  {
    if segments != [] {
      var n := |segments| - 1;
      PayloadIsJoined(segments[..n], decode);
      assert Decoded(segments, decode)[..n] == Decoded(segments[..n], decode);
    }
  }

  lemma OnePayload(segments: seq<Segment>, i: nat, decode: Decoder)
    requires i < |segments|
    ensures Payload(segments[i..i + 1], decode) == decode(segments[i])
  {
    NextPayload(segments, i, i, decode);
    assert segments[i..i] == [];
    if decode(segments[i]).Ok? {
      assert [] + decode(segments[i]).value == decode(segments[i]).value;
    }
  }

  /** On a sound range a part is one segment, decoded: the first for the main part, the next ones for
      the buffers. */
  lemma PartIsSegment(a: Archive, e: Entry, i: nat, decode: Decoder)
    requires e.first + i < e.last <= |a.segments| && i <= PART_ALL
    ensures PartBytes(a, e, if i == 0 then PART_MAIN else i - 1, decode) == decode(a.segments[e.first + i])
  {
    OnePayload(a.segments, e.first + i, decode);
  }

  lemma PartsAreDecoded(a: Archive, e: Entry, decode: Decoder)
    requires e.first < e.last <= |a.segments| < U32
    ensures MainAndBuffers(a, e, e.last - e.first - 1, decode) == Decoded(a.segments[e.first..e.last], decode)
  {
    forall i | 0 <= i < e.last - e.first
      ensures MainAndBuffers(a, e, e.last - e.first - 1, decode)[i] == decode(a.segments[e.first..e.last][i])
    {
      PartIsSegment(a, e, i, decode);
    }
  }

  lemma AllResolves(a: Archive, e: Entry)
    requires e.first < e.last <= |a.segments| < U32
    ensures Resolve(a, e, PART_ALL) == Ok(Range(e.first, e.last))
    ensures SegmentsIn(a, Range(e.first, e.last)) == a.segments[e.first..e.last]
    ensures Stat(a, e).buffers == e.last - e.first - 1 <= PART_ALL
    ensures Stat(a, e).size == Total(a.segments[e.first..e.last])
  {
  }

  lemma AllIsPayload(a: Archive, e: Entry, decode: Decoder)
    requires e.first < e.last <= |a.segments| < U32
    ensures PartBytes(a, e, PART_ALL, decode) == Payload(a.segments[e.first..e.last], decode)
  {
  }

  /** Reading everything gives the main part followed by every buffer a stat counts, as many bytes as
      the stat says. */
  lemma AllIsMainThenBuffers(a: Archive, e: Entry, decode: Decoder)
    requires e.first < e.last <= |a.segments| < U32 && FillsItsSize(decode)
    ensures Stat(a, e).buffers <= PART_ALL
    ensures PartBytes(a, e, PART_ALL, decode) == Joined(MainAndBuffers(a, e, Stat(a, e).buffers, decode))
    ensures Total(SegmentsIn(a, Resolve(a, e, PART_ALL).value)) == Stat(a, e).size
    ensures var all := PartBytes(a, e, PART_ALL, decode); all.Ok? ==> |all.value| == Stat(a, e).size
  {
    AllResolves(a, e);
    AllIsPayload(a, e, decode);
    PayloadIsJoined(a.segments[e.first..e.last], decode);
    PartsAreDecoded(a, e, decode);
    PayloadFillsTotal(a.segments[e.first..e.last], decode);
  }
}
