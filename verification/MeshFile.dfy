/** The mesh cache file of src/cache.cpp: a header naming the archive set, then the records. */
module MeshFile {
  import opened Bytes
  import opened MeshRecord

  type Fingerprint = f: nat | f < 0x1_0000_0000_0000_0000

  const MAGIC: nat := 0x434D_4652
  const VERSION: nat := 1
  const FILE_HEADER: nat := 24
  /** The first length that no longer fits the signed 32-bit result of ftell. */
  const TELL_LIMIT: nat := 0x8000_0000

  predicate AllStorable(meshes: seq<Mesh>) {
    forall i :: 0 <= i < |meshes| ==> Storable(meshes[i])
  }

  function Records(meshes: seq<Mesh>): (records: seq<Bytes>)
    ensures |records| == |meshes|
    ensures forall i :: 0 <= i < |records| ==> records[i] == EncodeMesh(meshes[i])
  {
    if meshes == [] then [] else [EncodeMesh(meshes[0])] + Records(meshes[1..])
  }

  function Concat(records: seq<Bytes>): Bytes {
    if records == [] then [] else records[0] + Concat(records[1..])
  }

  function FileHeader(fingerprint: Fingerprint, count: Word): (h: Bytes)
    ensures |h| == FILE_HEADER
  {
    EncodeWords([MAGIC, VERSION]) + (Put64(fingerprint) + EncodeWords([count, 0]))
  }

  /** A count as its field holds it. */
  function CountField(n: nat): Word {
    n % U32
  }

  function EncodeFile(fingerprint: Fingerprint, meshes: seq<Mesh>): Bytes {
    FileHeader(fingerprint, CountField(|meshes|)) + Concat(Records(meshes))
  }

  // ---------------------------------------------------------------- reading

  datatype Load = NoFile | BadHeader | WrongFingerprint | Loaded(declared: nat, meshes: seq<Mesh>)

  /** The items that can be read whole, one after the other, at most `count` of them. */
  function Items<T>(at: (Bytes, nat) -> Got<T>, buf: Bytes, p: nat, count: nat): seq<T>
    decreases count
  {
    if count == 0 || at(buf, p).Short? then []
    else [at(buf, p).value] + Items(at, buf, at(buf, p).end, count - 1)
  }

  function Parse(buf: Bytes, fingerprint: Fingerprint): Load {
    if |buf| < FILE_HEADER || |buf| >= TELL_LIMIT then NoFile
    else if WordAt(buf, 0) != MAGIC || WordAt(buf, 4) != VERSION then BadHeader
    else if HashAt(buf, 8) != fingerprint then WrongFingerprint
    else Loaded(WordAt(buf, 16), Items(MeshAt, buf, FILE_HEADER, WordAt(buf, 16)))
  }

  // ---------------------------------------------------------------- a file that was written, whole or cut

  function RepairedAll(meshes: seq<Mesh>): (r: seq<Mesh>)
    ensures |r| == |meshes| && forall i :: 0 <= i < |r| ==> r[i] == Repaired(meshes[i])
  {
    if meshes == [] then [] else [Repaired(meshes[0])] + RepairedAll(meshes[1..])
  }

  /** These bytes, whole, are read as the value; cut anywhere, they are refused. */
  ghost predicate ReadsAs<T(!new)>(at: (Bytes, nat) -> Got<T>, record: Bytes, value: T) {
    forall buf, p: nat, n: nat {:trigger Spells(buf, p, record), at(buf[..n], p)} ::
      Spells(buf, p, record) && n <= |buf| ==>
        at(buf[..n], p) == if p + |record| <= n then Got(value, p + |record|) else Short
  }

  lemma MeshReadsAs(m: Mesh)
    requires Storable(m)
    ensures ReadsAs(MeshAt, EncodeMesh(m), Repaired(m))
  {
    forall buf, p: nat, n: nat {:trigger Spells(buf, p, EncodeMesh(m)), MeshAt(buf[..n], p)}
      | Spells(buf, p, EncodeMesh(m)) && n <= |buf|
      ensures MeshAt(buf[..n], p)
           == if p + |EncodeMesh(m)| <= n then Got(Repaired(m), p + |EncodeMesh(m)|) else Short
    {
      RecordAtCut(buf, p, EncodeMesh(m), m, n);
    }
  }

  /** A record before the cut reads as it would from the whole file; one across the cut is refused. */
  lemma RecordAtCut(buf: Bytes, p: nat, record: Bytes, m: Mesh, n: nat)
    requires Storable(m) && record == EncodeMesh(m) && Spells(buf, p, record) && n <= |buf|
    ensures MeshAt(buf[..n], p) == if p + |record| <= n then Got(Repaired(m), p + |record|) else Short
  {
    if p + |record| <= n {
      assert buf[..n][p..p + |record|] == buf[p..p + |record|];
      RecordReads(buf[..n], p, m);
    } else {
      CutRecordIsShort(buf, p, m, n);
    }
  }

  ghost predicate AllRead<T(!new)>(at: (Bytes, nat) -> Got<T>, records: seq<Bytes>, values: seq<T>) {
    if records == [] || values == [] then records == [] && values == []
    else ReadsAs(at, records[0], values[0]) && AllRead(at, records[1..], values[1..])
  }

  lemma {:induction false} MeshesAllRead(meshes: seq<Mesh>)
    requires AllStorable(meshes)
    ensures AllRead(MeshAt, Records(meshes), RepairedAll(meshes))
  {
    if meshes != [] {
      MeshReadsAs(meshes[0]);
      MeshesAllRead(meshes[1..]);
      assert Records(meshes)[1..] == Records(meshes[1..]);
      assert RepairedAll(meshes)[1..] == RepairedAll(meshes[1..]);
    }
  }

  /** Cutting a stream anywhere restores a prefix of its values, a proper one unless nothing was cut. */
  lemma {:induction false} StreamRestored<T(!new)>(
      at: (Bytes, nat) -> Got<T>, buf: Bytes, p: nat, records: seq<Bytes>, values: seq<T>, n: nat)
    requires AllRead(at, records, values)
    requires Spells(buf, p, Concat(records)) && p + |Concat(records)| == |buf| && p <= n <= |buf|
    ensures var got := Items(at, buf[..n], p, |values|);
      got <= values && (|got| == |values| <==> n == |buf|)
    decreases |values|
  {
    if values != [] {
      SplitParts(buf, p, records[0], Concat(records[1..]));
      var mid := p + |records[0]|;
      assert at(buf[..n], p) == if mid <= n then Got(values[0], mid) else Short;
      if mid <= n {
        StreamRestored(at, buf, mid, records[1..], values[1..], n);
      }
    }
  }

  lemma PairReads(buf: Bytes, p: nat, first: Word, second: Word)
    requires Spells(buf, p, EncodeWords([first, second]))
    ensures WordAt(buf, p) == first && WordAt(buf, p + 4) == second
  {
    WordReads(buf, p, [first, second], 0);
    WordReads(buf, p, [first, second], 1);
  }

  lemma HeaderSpelled(buf: Bytes, fingerprint: Fingerprint, count: Word)
    requires Spells(buf, 0, FileHeader(fingerprint, count))
    ensures WordAt(buf, 0) == MAGIC && WordAt(buf, 4) == VERSION
    ensures HashAt(buf, 8) == fingerprint && WordAt(buf, 16) == count
  {
    var tail := EncodeWords([count, 0]);
    SplitParts(buf, 0, EncodeWords([MAGIC, VERSION]), Put64(fingerprint) + tail);
    SplitParts(buf, 8, Put64(fingerprint), tail);
    PairReads(buf, 0, MAGIC, VERSION);
    HashReads(buf, 8, fingerprint);
    PairReads(buf, 16, count, 0);
  }

  lemma BodyRestored(header: Bytes, meshes: seq<Mesh>, n: nat)
    requires |header| == FILE_HEADER && AllStorable(meshes)
    requires FILE_HEADER <= n <= FILE_HEADER + |Concat(Records(meshes))|
    ensures var got := Items(MeshAt, (header + Concat(Records(meshes)))[..n], FILE_HEADER, |meshes|);
      got <= RepairedAll(meshes)
      && (|got| == |meshes| <==> n == FILE_HEADER + |Concat(Records(meshes))|)
  {
    var records := Records(meshes);
    MeshesAllRead(meshes);
    var file := header + Concat(records);
    assert file[FILE_HEADER..FILE_HEADER + |Concat(records)|] == Concat(records);
    StreamRestored(MeshAt, file, FILE_HEADER, records, RepairedAll(meshes), n);
  }

  lemma HeaderSurvives(header: Bytes, body: Bytes, n: nat)
    requires |header| <= n <= |header| + |body|
    ensures Spells((header + body)[..n], 0, header)
  {
    assert (header + body)[..n][0..|header|] == header;
  }

  lemma ParseReads(buf: Bytes, written: Fingerprint, count: Word, asked: Fingerprint)
    requires Spells(buf, 0, FileHeader(written, count)) && |buf| < TELL_LIMIT
    ensures Parse(buf, asked)
         == if asked != written then WrongFingerprint else Loaded(count, Items(MeshAt, buf, FILE_HEADER, count))
  {
    HeaderSpelled(buf, written, count);
  }

  /** What Parse says of a cut file, from its two parts. */
  lemma PartsLoad(header: Bytes, body: Bytes, written: Fingerprint, meshes: seq<Mesh>, n: nat, asked: Fingerprint)
    requires AllStorable(meshes) && |meshes| < U32
    requires header == FileHeader(written, |meshes|) && body == Concat(Records(meshes))
    requires FILE_HEADER <= n <= FILE_HEADER + |body| && n < TELL_LIMIT
    ensures var load := Parse((header + body)[..n], asked);
      && (load.Loaded? <==> asked == written) && (load.WrongFingerprint? <==> asked != written)
      && (load.Loaded? ==>
            && load.declared == |meshes| && load.meshes <= RepairedAll(meshes)
            && (|load.meshes| == |meshes| <==> n == FILE_HEADER + |body|))
  {
    HeaderSurvives(header, body, n);
    ParseReads((header + body)[..n], written, |meshes|, asked);
    BodyRestored(header, meshes, n);
  }

  lemma FileIs(written: Fingerprint, meshes: seq<Mesh>)
    requires |meshes| < U32
    ensures EncodeFile(written, meshes) == FileHeader(written, |meshes|) + Concat(Records(meshes))
  {
    SmallCount(|meshes|);
  }

  lemma SmallCount(n: nat)
    requires n < U32
    ensures CountField(n) == n
  {
  }

  lemma TooShortOrLong(buf: Bytes, asked: Fingerprint)
    requires |buf| < FILE_HEADER || |buf| >= TELL_LIMIT
    ensures Parse(buf, asked).NoFile?
  {
  }

  /** Any prefix of a written file loads nothing, or is told apart by its fingerprint, or restores a
      prefix of its meshes that falls short of the declared count unless the file is whole. A whole
      file short enough for ftell is refused exactly when the fingerprint asked for is another one. */
  lemma CutFileLoads(written: Fingerprint, meshes: seq<Mesh>, n: nat, asked: Fingerprint)
    requires AllStorable(meshes) && |meshes| < U32 && n <= |EncodeFile(written, meshes)|
    ensures var load := Parse(EncodeFile(written, meshes)[..n], asked);
      && (load.Loaded? ==>
            && asked == written && load.declared == |meshes| && load.meshes <= RepairedAll(meshes)
            && (|load.meshes| == load.declared <==> n == |EncodeFile(written, meshes)|))
      && (n == |EncodeFile(written, meshes)| < TELL_LIMIT ==>
            (load.Loaded? <==> asked == written) && (load.WrongFingerprint? <==> asked != written))
  {
    FileIs(written, meshes);
    var header, body := FileHeader(written, |meshes|), Concat(Records(meshes));
    if FILE_HEADER <= n < TELL_LIMIT {
      PartsLoad(header, body, written, meshes, n, asked);
    } else {
      TooShortOrLong((header + body)[..n], asked);
    }
  }

  /** Saving then loading restores every mesh. */
  lemma WholeFileLoads(written: Fingerprint, meshes: seq<Mesh>)
    requires AllStorable(meshes) && |meshes| < U32 && |EncodeFile(written, meshes)| < TELL_LIMIT
    ensures Parse(EncodeFile(written, meshes), written) == Loaded(|meshes|, RepairedAll(meshes))
  {
    var file := EncodeFile(written, meshes);
    CutFileLoads(written, meshes, |file|, written);
    assert file[..|file|] == file;
  }
}
