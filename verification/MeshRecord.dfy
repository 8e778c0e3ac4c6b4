/** One record of the mesh cache file of src/cache.cpp: what is written, what reading it gives, and
    why the two agree. Positions are kept, so a record is read where it stands in its stream. */
module MeshRecord {
  import opened Bytes

  type Word = w: nat | w < 0x1_0000_0000
  type MeshHash = h: nat | h < 0x1_0000_0000_0000_0000

  /** Box values are opaque 32-bit words: the cache copies them and never computes with them. */
  datatype Vec = Vec(x: Word, y: Word, z: Word)
  datatype Box = Box(lo: Vec, hi: Vec)

  datatype Chunk = Chunk(
    index: Word, lodMask: Word, lod: Word, vertices: Word, indices: Word,
    boundsValid: bool, box: Box, positionOffset: Word, positionStride: Word)

  datatype Appearance = Appearance(name: Bytes, materials: seq<Bytes>)

  datatype Mesh = Mesh(
    hash: MeshHash, lodCount: Word, box: Box, chunks: seq<Chunk>, appearances: seq<Appearance>)

  const RECORD_HEADER: nat := 44
  const CHUNK_BYTES: nat := 48
  const APPEARANCE_BYTES: nat := 8
  const MATERIAL_BYTES: nat := 4

  // ---------------------------------------------------------------- writing

  function EncodeWords(words: seq<Word>): (s: Bytes)
    ensures |s| == 4 * |words|
  {
    if words == [] then [] else Put32(words[0]) + EncodeWords(words[1..])
  }

  function BoxWords(b: Box): (w: seq<Word>)
    ensures |w| == 6
  {
    [b.lo.x, b.lo.y, b.lo.z, b.hi.x, b.hi.y, b.hi.z]
  }

  function ChunkWords(c: Chunk): (w: seq<Word>)
    ensures |w| == 12
  {
    [c.index, c.lodMask, c.lod, c.vertices, c.indices, if c.boundsValid then 1 else 0] + BoxWords(c.box)
  }

  function EncodeChunks(chunks: seq<Chunk>): (s: Bytes)
    ensures |s| == CHUNK_BYTES * |chunks|
  {
    if chunks == [] then [] else EncodeWords(ChunkWords(chunks[0])) + EncodeChunks(chunks[1..])
  }

  function EncodeText(text: Bytes): Bytes {
    Put32(|text|) + text
  }

  function EncodeTexts(texts: seq<Bytes>): (s: Bytes)
    ensures |s| >= MATERIAL_BYTES * |texts|
  {
    if texts == [] then [] else EncodeText(texts[0]) + EncodeTexts(texts[1..])
  }

  function EncodeAppearance(a: Appearance): Bytes {
    EncodeText(a.name) + (Put32(|a.materials|) + EncodeTexts(a.materials))
  }

  function EncodeAppearances(appearances: seq<Appearance>): (s: Bytes)
    ensures |s| >= APPEARANCE_BYTES * |appearances|
  {
    if appearances == [] then []
    else EncodeAppearance(appearances[0]) + EncodeAppearances(appearances[1..])
  }

  function HeaderWords(m: Mesh): (w: seq<Word>)
    ensures |w| == 9
  {
    [m.lodCount, |m.chunks| % U32, |m.appearances| % U32] + BoxWords(m.box)
  }

  function EncodeMesh(m: Mesh): Bytes {
    Put64(m.hash) + (EncodeWords(HeaderWords(m)) + (EncodeChunks(m.chunks) + EncodeAppearances(m.appearances)))
  }

  /** Every count and length fits the 32-bit field it is written to. */
  predicate Storable(m: Mesh) {
    && |m.chunks| < U32 && |m.appearances| < U32
    && forall i :: 0 <= i < |m.appearances| ==> StorableAppearance(m.appearances[i])
  }

  predicate StorableAppearance(a: Appearance) {
    |a.name| < U32 && StorableTexts(a.materials)
  }

  predicate StorableTexts(texts: seq<Bytes>) {
    |texts| < U32 && forall i :: 0 <= i < |texts| ==> |texts[i]| < U32
  }

  // ---------------------------------------------------------------- reading

  /** What a read finds: not enough bytes, or a value and the position after it. */
  datatype Got<T> = Short | Got(value: T, end: nat)

  function WordAt(buf: Bytes, p: nat): Word
    requires p + 4 <= |buf|
  {
    RdBound(buf[p..p + 4]);
    Widths();
    Rd(buf[p..p + 4])
  }

  function VecAt(buf: Bytes, p: nat): Vec
    requires p + 12 <= |buf|
  {
    Vec(WordAt(buf, p), WordAt(buf, p + 4), WordAt(buf, p + 8))
  }

  function BoxAt(buf: Bytes, p: nat): Box
    requires p + 24 <= |buf|
  {
    Box(VecAt(buf, p), VecAt(buf, p + 12))
  }

  /** Levels of detail are 1-based, so a zero is read as a one. */
  function AtLeastOne(lod: Word): Word {
    if lod == 0 then 1 else lod
  }

  function ChunkAt(buf: Bytes, p: nat): Chunk
    requires p + CHUNK_BYTES <= |buf|
  {
    Chunk(WordAt(buf, p), WordAt(buf, p + 4), AtLeastOne(WordAt(buf, p + 8)), WordAt(buf, p + 12),
          WordAt(buf, p + 16), WordAt(buf, p + 20) != 0, BoxAt(buf, p + 24), 0, 0)
  }

  function ChunksAt(buf: Bytes, p: nat, count: nat): (chunks: seq<Chunk>)
    requires p + CHUNK_BYTES * count <= |buf|
    ensures |chunks| == count
    decreases count
  {
    if count == 0 then [] else [ChunkAt(buf, p)] + ChunksAt(buf, p + CHUNK_BYTES, count - 1)
  }

  function TextAt(buf: Bytes, p: nat): (g: Got<Bytes>)
    ensures g.Got? ==> g.end <= |buf|
  {
    if p + 4 > |buf| || p + 4 + WordAt(buf, p) > |buf| then Short
    else Got(buf[p + 4..p + 4 + WordAt(buf, p)], p + 4 + WordAt(buf, p))
  }

  function TextsAt(buf: Bytes, p: nat, count: nat): (g: Got<seq<Bytes>>)
    ensures p <= |buf| && g.Got? ==> g.end <= |buf|
    decreases count
  {
    if count == 0 then Got([], p)
    else
      var first := TextAt(buf, p);
      if first.Short? then Short
      else
        var rest := TextsAt(buf, first.end, count - 1);
        if rest.Short? then Short else Got([first.value] + rest.value, rest.end)
  }

  function Cap<T>(s: seq<T>, limit: nat): seq<T> {
    if |s| > limit then s[..limit] else s
  }

  /** The material count must be paid for by the bytes that remain; surplus materials are read and
      then dropped. */
  function MaterialsAt(buf: Bytes, p: nat, limit: nat): (g: Got<seq<Bytes>>)
    ensures g.Got? ==> g.end <= |buf|
  {
    if p + 4 > |buf| || WordAt(buf, p) > (|buf| - p - 4) / MATERIAL_BYTES then Short
    else
      var materials := TextsAt(buf, p + 4, WordAt(buf, p));
      if materials.Short? then Short else Got(Cap(materials.value, limit), materials.end)
  }

  function AppearanceAt(buf: Bytes, p: nat, limit: nat): (g: Got<Appearance>)
    ensures g.Got? ==> g.end <= |buf|
  {
    var name := TextAt(buf, p);
    if name.Short? then Short
    else
      var materials := MaterialsAt(buf, name.end, limit);
      if materials.Short? then Short else Got(Appearance(name.value, materials.value), materials.end)
  }

  function AppearancesAt(buf: Bytes, p: nat, count: nat, limit: nat): (g: Got<seq<Appearance>>)
    ensures p <= |buf| && g.Got? ==> g.end <= |buf|
    decreases count
  {
    if count == 0 then Got([], p)
    else
      var first := AppearanceAt(buf, p, limit);
      if first.Short? then Short
      else
        var rest := AppearancesAt(buf, first.end, count - 1, limit);
        if rest.Short? then Short else Got([first.value] + rest.value, rest.end)
  }

  /** The declared counts must be paid for by the bytes left after the header. */
  predicate CountsFit(chunks: nat, appearances: nat, left: nat) {
    chunks <= left / CHUNK_BYTES && appearances <= left / APPEARANCE_BYTES
  }

  function HashAt(buf: Bytes, p: nat): MeshHash
    requires p + 8 <= |buf|
  {
    RdBound(buf[p..p + 8]);
    Widths();
    Rd(buf[p..p + 8])
  }

  function Assembled(buf: Bytes, p: nat, count: nat, rest: Got<seq<Appearance>>): Got<Mesh>
    requires p + RECORD_HEADER + CHUNK_BYTES * count <= |buf|
  {
    if rest.Short? then Short
    else Got(Mesh(HashAt(buf, p), AtLeastOne(WordAt(buf, p + 8)), BoxAt(buf, p + 20),
                  ChunksAt(buf, p + RECORD_HEADER, count), rest.value), rest.end)
  }

  function MeshAt(buf: Bytes, p: nat): (g: Got<Mesh>)
    ensures g.Got? ==> p + RECORD_HEADER <= g.end <= |buf|
  {
    if p + RECORD_HEADER > |buf| then Short
    else
      var chunks, appearances, body := WordAt(buf, p + 12), WordAt(buf, p + 16), p + RECORD_HEADER;
      if !CountsFit(chunks, appearances, |buf| - body) then Short
      else
        AppearancesStartBefore(buf, body + CHUNK_BYTES * chunks, appearances, chunks);
        Assembled(buf, p, chunks, AppearancesAt(buf, body + CHUNK_BYTES * chunks, appearances, chunks))
  }

  lemma TextsStartBefore(buf: Bytes, p: nat, count: nat)
    ensures var g := TextsAt(buf, p, count); g.Got? ==> p <= g.end
    decreases count
  {
    if count > 0 && TextAt(buf, p).Got? {
      TextsStartBefore(buf, TextAt(buf, p).end, count - 1);
    }
  }

  lemma AppearancesStartBefore(buf: Bytes, p: nat, count: nat, limit: nat)
    ensures var g := AppearancesAt(buf, p, count, limit); g.Got? ==> p <= g.end
    decreases count
  {
    if count > 0 && AppearanceAt(buf, p, limit).Got? {
      var name := TextAt(buf, p).end;
      TextsStartBefore(buf, name + 4, WordAt(buf, name));
      AppearancesStartBefore(buf, AppearanceAt(buf, p, limit).end, count - 1, limit);
    }
  }

  // ---------------------------------------------------------------- what a record keeps

  /** What callers can see of a chunk: where its positions lie is neither public nor stored. */
  function PublicChunk(c: Chunk): Chunk {
    c.(positionOffset := 0, positionStride := 0)
  }

  function PublicChunks(chunks: seq<Chunk>): (r: seq<Chunk>)
    ensures |r| == |chunks| && forall i :: 0 <= i < |r| ==> r[i] == PublicChunk(chunks[i])
  {
    if chunks == [] then [] else [PublicChunk(chunks[0])] + PublicChunks(chunks[1..])
  }

  function Public(m: Mesh): Mesh {
    m.(chunks := PublicChunks(m.chunks))
  }

  function RepairedChunks(chunks: seq<Chunk>): (r: seq<Chunk>)
    ensures |r| == |chunks|
    ensures forall i :: 0 <= i < |r| ==> r[i] == PublicChunk(chunks[i]).(lod := AtLeastOne(chunks[i].lod))
  {
    if chunks == [] then []
    else [PublicChunk(chunks[0]).(lod := AtLeastOne(chunks[0].lod))] + RepairedChunks(chunks[1..])
  }

  function RepairedAppearances(appearances: seq<Appearance>, limit: nat): (r: seq<Appearance>)
    ensures |r| == |appearances|
    ensures forall i :: 0 <= i < |r| ==>
      r[i] == appearances[i].(materials := Cap(appearances[i].materials, limit))
  {
    if appearances == [] then []
    else
      var first := appearances[0].(materials := Cap(appearances[0].materials, limit));
      [first] + RepairedAppearances(appearances[1..], limit)
  }

  /** What reading a record makes of the mesh that was written. */
  function Repaired(m: Mesh): Mesh {
    Mesh(m.hash, AtLeastOne(m.lodCount), m.box, RepairedChunks(m.chunks),
         RepairedAppearances(m.appearances, |m.chunks|))
  }

  /** What mesh_build guarantees: 1-based levels, and no appearance naming more materials than the
      mesh has chunks. */
  predicate WellBuilt(m: Mesh) {
    && m.lodCount >= 1
    && (forall i :: 0 <= i < |m.chunks| ==> m.chunks[i].lod >= 1)
    && forall i :: 0 <= i < |m.appearances| ==> |m.appearances[i].materials| <= |m.chunks|
  }

  /** Neither clamp fires exactly on a well-built mesh. */
  lemma RepairsNothingIff(m: Mesh)
    ensures Repaired(m) == Public(m) <==> WellBuilt(m)
  {
    var r := Repaired(m);
    if r == Public(m) {
      forall i | 0 <= i < |m.chunks| ensures m.chunks[i].lod >= 1 {
        assert r.chunks[i] == PublicChunk(m.chunks[i]);
      }
      forall i | 0 <= i < |m.appearances| ensures |m.appearances[i].materials| <= |m.chunks| {
        assert r.appearances[i] == m.appearances[i];
      }
    }
    if WellBuilt(m) {
      assert r.chunks == PublicChunks(m.chunks);
      assert r.appearances == m.appearances;
    }
  }

  // ---------------------------------------------------------------- reading back what was written

  /** The words stand at position `p`, one every four bytes. */
  predicate WordsAt(buf: Bytes, p: nat, words: seq<Word>) {
    && p + 4 * |words| <= |buf|
    && forall k :: 0 <= k < |words| ==> WordAt(buf, p + 4 * k) == words[k]
  }

  lemma {:induction false} WordReads(buf: Bytes, p: nat, words: seq<Word>, k: nat)
    requires Spells(buf, p, EncodeWords(words)) && k < |words|
    ensures WordAt(buf, p + 4 * k) == words[k]
    decreases k
  {
    SplitParts(buf, p, Put32(words[0]), EncodeWords(words[1..]));
    if k == 0 {
      Put32Reads(buf, p, words[0]);
    } else {
      WordReads(buf, p + 4, words[1..], k - 1);
    }
  }

  lemma WordsRead(buf: Bytes, p: nat, words: seq<Word>)
    requires Spells(buf, p, EncodeWords(words))
    ensures WordsAt(buf, p, words)
  {
    forall k | 0 <= k < |words| ensures WordAt(buf, p + 4 * k) == words[k] {
      WordReads(buf, p, words, k);
    }
  }

  lemma ChunkReads(buf: Bytes, p: nat, c: Chunk)
    requires WordsAt(buf, p, ChunkWords(c))
    ensures ChunkAt(buf, p) == PublicChunk(c).(lod := AtLeastOne(c.lod))
  {
    var w := ChunkWords(c);
    assert WordAt(buf, p + 4 * 0) == w[0] && WordAt(buf, p + 4 * 1) == w[1] && WordAt(buf, p + 4 * 2) == w[2];
    assert WordAt(buf, p + 4 * 3) == w[3] && WordAt(buf, p + 4 * 4) == w[4] && WordAt(buf, p + 4 * 5) == w[5];
    assert WordAt(buf, p + 4 * 6) == w[6] && WordAt(buf, p + 4 * 7) == w[7] && WordAt(buf, p + 4 * 8) == w[8];
    assert WordAt(buf, p + 4 * 9) == w[9] && WordAt(buf, p + 4 * 10) == w[10] && WordAt(buf, p + 4 * 11) == w[11];
  }

  lemma ChunksPart(buf: Bytes, p: nat, chunks: seq<Chunk>)
    requires chunks != [] && Spells(buf, p, EncodeChunks(chunks))
    ensures Spells(buf, p, EncodeWords(ChunkWords(chunks[0])))
    ensures Spells(buf, p + CHUNK_BYTES, EncodeChunks(chunks[1..]))
  {
    SplitParts(buf, p, EncodeWords(ChunkWords(chunks[0])), EncodeChunks(chunks[1..]));
  }

  lemma {:induction false} ChunksRead(buf: Bytes, p: nat, chunks: seq<Chunk>)
    requires Spells(buf, p, EncodeChunks(chunks))
    ensures ChunksAt(buf, p, |chunks|) == RepairedChunks(chunks)
    decreases |chunks|
  {
    if chunks != [] {
      ChunksPart(buf, p, chunks);
      WordsRead(buf, p, ChunkWords(chunks[0]));
      ChunkReads(buf, p, chunks[0]);
      ChunksRead(buf, p + CHUNK_BYTES, chunks[1..]);
    }
  }

  lemma TextReads(buf: Bytes, p: nat, text: Bytes)
    requires |text| < U32 && Spells(buf, p, EncodeText(text))
    ensures TextAt(buf, p) == Got(text, p + |EncodeText(text)|)
  {
    FieldThenRest(buf, p, |text|, text);
  }

  lemma TextsPart(buf: Bytes, p: nat, texts: seq<Bytes>)
    requires texts != [] && Spells(buf, p, EncodeTexts(texts))
    ensures Spells(buf, p, EncodeText(texts[0]))
    ensures Spells(buf, p + |EncodeText(texts[0])|, EncodeTexts(texts[1..]))
    ensures |EncodeTexts(texts)| == |EncodeText(texts[0])| + |EncodeTexts(texts[1..])|
  {
    SplitParts(buf, p, EncodeText(texts[0]), EncodeTexts(texts[1..]));
  }

  lemma TextsStep(buf: Bytes, p: nat, texts: seq<Bytes>, mid: nat, end: nat)
    requires texts != [] && TextAt(buf, p) == Got(texts[0], mid)
    requires TextsAt(buf, mid, |texts| - 1) == Got(texts[1..], end)
    ensures TextsAt(buf, p, |texts|) == Got(texts, end)
  {
    assert texts == [texts[0]] + texts[1..];
  }

  lemma {:induction false} TextsRead(buf: Bytes, p: nat, texts: seq<Bytes>)
    requires StorableTexts(texts) && Spells(buf, p, EncodeTexts(texts))
    ensures TextsAt(buf, p, |texts|) == Got(texts, p + |EncodeTexts(texts)|)
    decreases |texts|
  {
    if texts != [] {
      TextsPart(buf, p, texts);
      TextReads(buf, p, texts[0]);
      var mid := p + |EncodeText(texts[0])|;
      TextsRead(buf, mid, texts[1..]);
      TextsStep(buf, p, texts, mid, mid + |EncodeTexts(texts[1..])|);
    }
  }

  /** The remaining-bytes guard never rejects materials that were written. */
  lemma MaterialsRead(buf: Bytes, p: nat, materials: seq<Bytes>, limit: nat)
    requires StorableTexts(materials) && Spells(buf, p, Put32(|materials|) + EncodeTexts(materials))
    ensures MaterialsAt(buf, p, limit) == Got(Cap(materials, limit), p + 4 + |EncodeTexts(materials)|)
  {
    FieldThenRest(buf, p, |materials|, EncodeTexts(materials));
    TextsRead(buf, p + 4, materials);
  }

  lemma AppearanceReads(buf: Bytes, p: nat, a: Appearance, limit: nat)
    requires StorableAppearance(a) && Spells(buf, p, EncodeAppearance(a))
    ensures AppearanceAt(buf, p, limit)
         == Got(a.(materials := Cap(a.materials, limit)), p + |EncodeAppearance(a)|)
  {
    SplitParts(buf, p, EncodeText(a.name), Put32(|a.materials|) + EncodeTexts(a.materials));
    TextReads(buf, p, a.name);
    MaterialsRead(buf, p + |EncodeText(a.name)|, a.materials, limit);
  }

  lemma AppearancesPart(buf: Bytes, p: nat, appearances: seq<Appearance>)
    requires appearances != [] && Spells(buf, p, EncodeAppearances(appearances))
    ensures var size := |EncodeAppearance(appearances[0])|;
      && Spells(buf, p, EncodeAppearance(appearances[0]))
      && Spells(buf, p + size, EncodeAppearances(appearances[1..]))
      && |EncodeAppearances(appearances)| == size + |EncodeAppearances(appearances[1..])|
  {
    FirstAppearance(buf, p, appearances, EncodeAppearance(appearances[0]), EncodeAppearances(appearances[1..]));
  }

  lemma FirstAppearance(buf: Bytes, p: nat, appearances: seq<Appearance>, first: Bytes, rest: Bytes)
    requires appearances != [] && Spells(buf, p, EncodeAppearances(appearances))
    requires first == EncodeAppearance(appearances[0]) && rest == EncodeAppearances(appearances[1..])
    ensures Spells(buf, p, first) && Spells(buf, p + |first|, rest)
    ensures |EncodeAppearances(appearances)| == |first| + |rest|
  {
    SplitParts(buf, p, first, rest);
  }

  lemma AppearancesStep(buf: Bytes, p: nat, appearances: seq<Appearance>, limit: nat, mid: nat, end: nat)
    requires appearances != []
    requires AppearanceAt(buf, p, limit)
          == Got(appearances[0].(materials := Cap(appearances[0].materials, limit)), mid)
    requires AppearancesAt(buf, mid, |appearances| - 1, limit)
          == Got(RepairedAppearances(appearances[1..], limit), end)
    ensures AppearancesAt(buf, p, |appearances|, limit) == Got(RepairedAppearances(appearances, limit), end)
  {
  }

  lemma {:induction false} AppearancesRead(buf: Bytes, p: nat, appearances: seq<Appearance>, limit: nat)
    requires forall i :: 0 <= i < |appearances| ==> StorableAppearance(appearances[i])
    requires Spells(buf, p, EncodeAppearances(appearances))
    ensures AppearancesAt(buf, p, |appearances|, limit)
         == Got(RepairedAppearances(appearances, limit), p + |EncodeAppearances(appearances)|)
    decreases |appearances|
  {
    if appearances != [] {
      AppearancesPart(buf, p, appearances);
      AppearanceReads(buf, p, appearances[0], limit);
      var mid := p + |EncodeAppearance(appearances[0])|;
      AppearancesRead(buf, mid, appearances[1..], limit);
      AppearancesStep(buf, p, appearances, limit, mid, mid + |EncodeAppearances(appearances[1..])|);
    }
  }

  lemma HeaderReads(buf: Bytes, p: nat, m: Mesh)
    requires Storable(m) && WordsAt(buf, p, HeaderWords(m))
    ensures WordAt(buf, p) == m.lodCount && WordAt(buf, p + 4) == |m.chunks|
    ensures WordAt(buf, p + 8) == |m.appearances| && BoxAt(buf, p + 12) == m.box
  {
    var w := HeaderWords(m);
    assert WordAt(buf, p + 4 * 0) == w[0] && WordAt(buf, p + 4 * 1) == w[1] && WordAt(buf, p + 4 * 2) == w[2];
    assert WordAt(buf, p + 4 * 3) == w[3] && WordAt(buf, p + 4 * 4) == w[4] && WordAt(buf, p + 4 * 5) == w[5];
    assert WordAt(buf, p + 4 * 6) == w[6] && WordAt(buf, p + 4 * 7) == w[7] && WordAt(buf, p + 4 * 8) == w[8];
  }

  lemma HashReads(buf: Bytes, p: nat, hash: MeshHash)
    requires Spells(buf, p, Put64(hash))
    ensures HashAt(buf, p) == hash
  {
    Put64ReadBack(hash);
  }

  lemma RecordParts(buf: Bytes, p: nat, m: Mesh)
    requires Storable(m) && Spells(buf, p, EncodeMesh(m))
    ensures Spells(buf, p, Put64(m.hash)) && Spells(buf, p + 8, EncodeWords(HeaderWords(m)))
    ensures var body := p + RECORD_HEADER;
      && Spells(buf, body, EncodeChunks(m.chunks))
      && Spells(buf, body + CHUNK_BYTES * |m.chunks|, EncodeAppearances(m.appearances))
    ensures |EncodeMesh(m)| == RECORD_HEADER + CHUNK_BYTES * |m.chunks| + |EncodeAppearances(m.appearances)|
  {
    var chunks, appearances := EncodeChunks(m.chunks), EncodeAppearances(m.appearances);
    SplitParts(buf, p, Put64(m.hash), EncodeWords(HeaderWords(m)) + (chunks + appearances));
    SplitParts(buf, p + 8, EncodeWords(HeaderWords(m)), chunks + appearances);
    SplitParts(buf, p + RECORD_HEADER, chunks, appearances);
  }

  lemma AssembledFrom(buf: Bytes, p: nat, m: Mesh, rest: Got<seq<Appearance>>)
    requires p + RECORD_HEADER + CHUNK_BYTES * |m.chunks| <= |buf|
    requires HashAt(buf, p) == m.hash && WordAt(buf, p + 8) == m.lodCount && BoxAt(buf, p + 20) == m.box
    requires ChunksAt(buf, p + RECORD_HEADER, |m.chunks|) == RepairedChunks(m.chunks)
    requires rest.Got? && rest.value == RepairedAppearances(m.appearances, |m.chunks|)
    ensures Assembled(buf, p, |m.chunks|, rest) == Got(Repaired(m), rest.end)
  {
  }

  lemma CountsPaidFor(chunks: nat, appearances: nat, left: nat)
    requires CHUNK_BYTES * chunks + APPEARANCE_BYTES * appearances <= left
    ensures CountsFit(chunks, appearances, left)
  {
  }

  lemma MeshFromParts(buf: Bytes, p: nat, chunks: nat, appearances: nat, rest: Got<seq<Appearance>>)
    requires p + RECORD_HEADER <= |buf|
    requires WordAt(buf, p + 12) == chunks && WordAt(buf, p + 16) == appearances
    requires CountsFit(chunks, appearances, |buf| - p - RECORD_HEADER)
    requires AppearancesAt(buf, p + RECORD_HEADER + CHUNK_BYTES * chunks, appearances, chunks) == rest
    ensures MeshAt(buf, p) == Assembled(buf, p, chunks, rest)
  {
  }

  lemma RecordFields(buf: Bytes, p: nat, m: Mesh)
    requires Storable(m) && Spells(buf, p, EncodeMesh(m))
    ensures HashAt(buf, p) == m.hash && WordAt(buf, p + 8) == m.lodCount && BoxAt(buf, p + 20) == m.box
    ensures WordAt(buf, p + 12) == |m.chunks| && WordAt(buf, p + 16) == |m.appearances|
  {
    RecordParts(buf, p, m);
    HashReads(buf, p, m.hash);
    WordsRead(buf, p + 8, HeaderWords(m));
    HeaderReads(buf, p + 8, m);
  }

  /** The counts written are always paid for by the bytes written after them. */
  lemma RecordPays(buf: Bytes, p: nat, m: Mesh)
    requires Storable(m) && Spells(buf, p, EncodeMesh(m))
    ensures CountsFit(|m.chunks|, |m.appearances|, |buf| - p - RECORD_HEADER)
  {
    RecordParts(buf, p, m);
    CountsPaidFor(|m.chunks|, |m.appearances|, |buf| - p - RECORD_HEADER);
  }

  lemma RecordChunks(buf: Bytes, p: nat, m: Mesh)
    requires Storable(m) && Spells(buf, p, EncodeMesh(m))
    ensures p + RECORD_HEADER + CHUNK_BYTES * |m.chunks| <= |buf|
    ensures ChunksAt(buf, p + RECORD_HEADER, |m.chunks|) == RepairedChunks(m.chunks)
  {
    RecordParts(buf, p, m);
    ChunksRead(buf, p + RECORD_HEADER, m.chunks);
  }

  lemma RecordTail(buf: Bytes, p: nat, m: Mesh, at: nat)
    requires Storable(m) && Spells(buf, p, EncodeMesh(m))
    requires at == p + RECORD_HEADER + CHUNK_BYTES * |m.chunks|
    ensures Spells(buf, at, EncodeAppearances(m.appearances))
    ensures at + |EncodeAppearances(m.appearances)| == p + |EncodeMesh(m)|
  {
    RecordParts(buf, p, m);
  }

  lemma RecordAppearances(buf: Bytes, p: nat, m: Mesh)
    requires Storable(m) && Spells(buf, p, EncodeMesh(m))
    ensures AppearancesAt(buf, p + RECORD_HEADER + CHUNK_BYTES * |m.chunks|, |m.appearances|, |m.chunks|)
         == Got(RepairedAppearances(m.appearances, |m.chunks|), p + |EncodeMesh(m)|)
  {
    var at := p + RECORD_HEADER + CHUNK_BYTES * |m.chunks|;
    RecordTail(buf, p, m, at);
    AppearancesRead(buf, at, m.appearances, |m.chunks|);
  }

  /** Everything MeshAt looks at, once the record's bytes are known. */
  predicate RecordStands(buf: Bytes, p: nat, m: Mesh, end: nat) {
    && p + RECORD_HEADER + CHUNK_BYTES * |m.chunks| <= |buf|
    && WordAt(buf, p + 12) == |m.chunks| && WordAt(buf, p + 16) == |m.appearances|
    && CountsFit(|m.chunks|, |m.appearances|, |buf| - p - RECORD_HEADER)
    && AppearancesAt(buf, p + RECORD_HEADER + CHUNK_BYTES * |m.chunks|, |m.appearances|, |m.chunks|)
       == Got(RepairedAppearances(m.appearances, |m.chunks|), end)
    && Assembled(buf, p, |m.chunks|, Got(RepairedAppearances(m.appearances, |m.chunks|), end))
       == Got(Repaired(m), end)
  }

  lemma RecordFits(buf: Bytes, p: nat, m: Mesh, end: nat)
    requires Storable(m) && Spells(buf, p, EncodeMesh(m)) && end == p + |EncodeMesh(m)|
    ensures RecordStands(buf, p, m, end)
  {
    RecordFields(buf, p, m);
    RecordChunks(buf, p, m);
    RecordPays(buf, p, m);
    RecordAppearances(buf, p, m);
    AssembledFrom(buf, p, m, Got(RepairedAppearances(m.appearances, |m.chunks|), end));
  }

  lemma StandingRecordReads(buf: Bytes, p: nat, m: Mesh, end: nat)
    requires RecordStands(buf, p, m, end)
    ensures MeshAt(buf, p) == Got(Repaired(m), end)
  {
    MeshFromParts(buf, p, |m.chunks|, |m.appearances|,
                  Got(RepairedAppearances(m.appearances, |m.chunks|), end));
  }

  /** A record reads back to the mesh written, repaired, wherever it stands and whatever follows it:
      no guard rejects it and the next record starts where it ends. */
  lemma RecordReads(buf: Bytes, p: nat, m: Mesh)
    requires Storable(m) && Spells(buf, p, EncodeMesh(m))
    ensures MeshAt(buf, p) == Got(Repaired(m), p + |EncodeMesh(m)|)
  {
    var end := p + |EncodeMesh(m)|;
    RecordFits(buf, p, m, end);
    StandingRecordReads(buf, p, m, end);
  }

  // ---------------------------------------------------------------- cut records

  lemma WordSame(buf: Bytes, longer: Bytes, p: nat)
    requires buf <= longer && p + 4 <= |buf|
    ensures WordAt(longer, p) == WordAt(buf, p)
  {
    assert longer[p..p + 4] == buf[p..p + 4];
  }

  lemma TextSame(buf: Bytes, longer: Bytes, p: nat)
    requires buf <= longer && TextAt(buf, p).Got?
    ensures TextAt(longer, p) == TextAt(buf, p)
  {
    WordSame(buf, longer, p);
    var end := TextAt(buf, p).end;
    assert longer[p + 4..end] == buf[p + 4..end];
  }

  lemma {:induction false} TextsSame(buf: Bytes, longer: Bytes, p: nat, count: nat)
    requires buf <= longer && TextsAt(buf, p, count).Got?
    ensures TextsAt(longer, p, count) == TextsAt(buf, p, count)
    decreases count
  {
    if count > 0 {
      TextSame(buf, longer, p);
      TextsSame(buf, longer, TextAt(buf, p).end, count - 1);
    }
  }

  lemma AppearanceSame(buf: Bytes, longer: Bytes, p: nat, limit: nat)
    requires buf <= longer && AppearanceAt(buf, p, limit).Got?
    ensures AppearanceAt(longer, p, limit) == AppearanceAt(buf, p, limit)
  {
    TextSame(buf, longer, p);
    var at := TextAt(buf, p).end;
    WordSame(buf, longer, at);
    TextsSame(buf, longer, at + 4, WordAt(buf, at));
  }

  lemma {:induction false} AppearancesSame(buf: Bytes, longer: Bytes, p: nat, count: nat, limit: nat)
    requires buf <= longer && AppearancesAt(buf, p, count, limit).Got?
    ensures AppearancesAt(longer, p, count, limit) == AppearancesAt(buf, p, count, limit)
    decreases count
  {
    if count > 0 {
      AppearanceSame(buf, longer, p, limit);
      AppearancesSame(buf, longer, AppearanceAt(buf, p, limit).end, count - 1, limit);
    }
  }

  /** The counts that the header declares, which pass their guard. */
  predicate Declares(buf: Bytes, p: nat, chunks: nat, appearances: nat) {
    && p + RECORD_HEADER <= |buf|
    && WordAt(buf, p + 12) == chunks && WordAt(buf, p + 16) == appearances
    && CountsFit(chunks, appearances, |buf| - p - RECORD_HEADER)
  }

  lemma MeshDeclares(buf: Bytes, p: nat) returns (chunks: nat, appearances: nat, at: nat)
    requires MeshAt(buf, p).Got?
    ensures Declares(buf, p, chunks, appearances) && at == p + RECORD_HEADER + CHUNK_BYTES * chunks
    ensures AppearancesAt(buf, at, appearances, chunks).Got?
    ensures AppearancesAt(buf, at, appearances, chunks).end == MeshAt(buf, p).end
  {
    chunks, appearances := WordAt(buf, p + 12), WordAt(buf, p + 16);
    at := p + RECORD_HEADER + CHUNK_BYTES * chunks;
  }

  lemma DeclaredEnds(buf: Bytes, p: nat, chunks: nat, appearances: nat, at: nat, end: nat)
    requires Declares(buf, p, chunks, appearances) && at == p + RECORD_HEADER + CHUNK_BYTES * chunks
    requires AppearancesAt(buf, at, appearances, chunks).Got? && AppearancesAt(buf, at, appearances, chunks).end == end
    ensures MeshAt(buf, p).Got? && MeshAt(buf, p).end == end
  {
    MeshFromParts(buf, p, chunks, appearances, AppearancesAt(buf, at, appearances, chunks));
  }

  lemma MoreFits(chunks: nat, appearances: nat, left: nat, more: nat)
    requires CountsFit(chunks, appearances, left) && left <= more
    ensures CountsFit(chunks, appearances, more)
  {
  }

  lemma DeclaresSame(buf: Bytes, longer: Bytes, p: nat, chunks: nat, appearances: nat)
    requires buf <= longer && Declares(buf, p, chunks, appearances)
    ensures Declares(longer, p, chunks, appearances)
  {
    WordSame(buf, longer, p + 12);
    WordSame(buf, longer, p + 16);
    MoreFits(chunks, appearances, |buf| - p - RECORD_HEADER, |longer| - p - RECORD_HEADER);
  }

  /** A record that reads whole ends at the same place however many bytes follow it. */
  lemma EndSame(buf: Bytes, longer: Bytes, p: nat)
    requires buf <= longer && MeshAt(buf, p).Got?
    ensures MeshAt(longer, p).Got? && MeshAt(longer, p).end == MeshAt(buf, p).end
  {
    var chunks, appearances, at := MeshDeclares(buf, p);
    DeclaresSame(buf, longer, p, chunks, appearances);
    AppearancesSame(buf, longer, at, appearances, chunks);
    DeclaredEnds(longer, p, chunks, appearances, at, MeshAt(buf, p).end);
  }

  /** A record that is cut anywhere is refused. */
  lemma CutRecordIsShort(buf: Bytes, p: nat, m: Mesh, n: nat)
    requires Storable(m) && Spells(buf, p, EncodeMesh(m)) && n < p + |EncodeMesh(m)|
    ensures MeshAt(buf[..n], p).Short?
  {
    RecordReads(buf, p, m);
    if MeshAt(buf[..n], p).Got? {
      EndSame(buf[..n], buf, p);
    }
  }
}
