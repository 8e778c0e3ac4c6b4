/** The serializer and deserializer of src/cache.cpp as the loops they are, proved against the
    record's specification. */
module MeshCodec {
  import opened Bytes
  import opened Cursor
  import opened MeshRecord

  // ---------------------------------------------------------------- serialize

  /** The runs of put_u32 and put_f32 calls. */
  method PutWords(start: Bytes, words: seq<Word>) returns (out: Bytes)
    ensures out == start + EncodeWords(words)
  {
    out := start;
    for i := 0 to |words|
      invariant out + EncodeWords(words[i..]) == start + EncodeWords(words)
    {
      assert words[i..][1..] == words[i + 1..];
      PutFirst(out, Put32(words[i]), EncodeWords(words[i + 1..]));
      out := out + Put32(words[i]);
    }
  }

  method PutChunks(start: Bytes, chunks: seq<Chunk>) returns (out: Bytes)
    ensures out == start + EncodeChunks(chunks)
  {
    out := start;
    for i := 0 to |chunks|
      invariant out + EncodeChunks(chunks[i..]) == start + EncodeChunks(chunks)
    {
      PutFirst(out, EncodeWords(ChunkWords(chunks[i])), EncodeChunks(chunks[i + 1..]));
      out := PutWords(out, ChunkWords(chunks[i]));
    }
  }

  method PutTexts(start: Bytes, texts: seq<Bytes>) returns (out: Bytes)
    ensures out == start + EncodeTexts(texts)
  {
    out := start;
    for i := 0 to |texts|
      invariant out + EncodeTexts(texts[i..]) == start + EncodeTexts(texts)
    {
      PutFirst(out, EncodeText(texts[i]), EncodeTexts(texts[i + 1..]));
      out := out + EncodeText(texts[i]);
    }
  }

  lemma AppearancesFrom(appearances: seq<Appearance>, i: nat)
    requires i < |appearances|
    ensures EncodeAppearances(appearances[i..])
         == EncodeAppearance(appearances[i]) + EncodeAppearances(appearances[i + 1..])
  {
    assert appearances[i..][1..] == appearances[i + 1..];
  }

  method PutAppearances(start: Bytes, appearances: seq<Appearance>) returns (out: Bytes)
    ensures out == start + EncodeAppearances(appearances)
  {
    out := start;
    for i := 0 to |appearances|
      invariant out + EncodeAppearances(appearances[i..]) == start + EncodeAppearances(appearances)
    {
      AppearancesFrom(appearances, i);
      PutFirst(out, EncodeAppearance(appearances[i]), EncodeAppearances(appearances[i + 1..]));
      out := PutAppearance(out, appearances[i]);
    }
  }

  method PutAppearance(start: Bytes, a: Appearance) returns (out: Bytes)
    ensures out == start + EncodeAppearance(a)
  {
    out := start + EncodeText(a.name);
    out := out + Put32(|a.materials|);
    out := PutTexts(out, a.materials);
  }

  method Serialize(start: Bytes, m: Mesh) returns (out: Bytes)
    ensures out == start + EncodeMesh(m)
  {
    ghost var header, chunks, appearances :=
      EncodeWords(HeaderWords(m)), EncodeChunks(m.chunks), EncodeAppearances(m.appearances);
    PutFirst(start, Put64(m.hash), header + (chunks + appearances));
    out := start + Put64(m.hash);
    PutFirst(out, header, chunks + appearances);
    out := PutWords(out, HeaderWords(m));
    PutFirst(out, chunks, appearances);
    out := PutChunks(out, m.chunks);
    out := PutAppearances(out, m.appearances);
  }

  // ---------------------------------------------------------------- deserialize

  /** Elements already read, in front of what is still to be read. */
  function Prepend<T>(done: seq<T>, g: Got<seq<T>>): Got<seq<T>> {
    if g.Short? then Short else Got(done + g.value, g.end)
  }

  method ReadWord(r: Reader) returns (v: Word)
    requires r.Valid()
    modifies r
    ensures r.Valid() && r.ok == (old(r.ok) && old(r.p) + 4 <= |r.buf|)
    ensures r.ok ==> r.p == old(r.p) + 4 && v == WordAt(r.buf, old(r.p))
  {
    if r.ok && r.p + 4 <= |r.buf| {
      RdBound(r.buf[r.p..r.p + 4]);
      Widths();
    }
    v := r.U32();
  }

  method ReadVec(r: Reader) returns (v: Vec)
    requires r.Valid()
    modifies r
    ensures r.Valid() && r.ok == (old(r.ok) && old(r.p) + 12 <= |r.buf|)
    ensures r.ok ==> r.p == old(r.p) + 12 && v == VecAt(r.buf, old(r.p))
  {
    var x := ReadWord(r);
    var y := ReadWord(r);
    var z := ReadWord(r);
    v := Vec(x, y, z);
  }

  method ReadBox(r: Reader) returns (b: Box)
    requires r.Valid()
    modifies r
    ensures r.Valid() && r.ok == (old(r.ok) && old(r.p) + 24 <= |r.buf|)
    ensures r.ok ==> r.p == old(r.p) + 24 && b == BoxAt(r.buf, old(r.p))
  {
    var lo := ReadVec(r);
    var hi := ReadVec(r);
    b := Box(lo, hi);
  }

  method ReadChunk(r: Reader) returns (c: Chunk)
    requires r.Valid() && r.ok && r.p + CHUNK_BYTES <= |r.buf|
    modifies r
    ensures r.Valid() && r.ok && r.p == old(r.p) + CHUNK_BYTES && c == ChunkAt(r.buf, old(r.p))
  {
    var index := ReadWord(r);
    var lodMask := ReadWord(r);
    var lod := ReadWord(r);
    var vertices := ReadWord(r);
    var indices := ReadWord(r);
    var valid := ReadWord(r);
    var box := ReadBox(r);
    if lod == 0 {
      lod := 1;
    }
    c := Chunk(index, lodMask, lod, vertices, indices, valid != 0, box, 0, 0);
  }

  /** One more chunk moves from what is left to what is done. */
  lemma ChunkDone(done: seq<Chunk>, buf: Bytes, p: nat, left: nat)
    requires left > 0 && p + CHUNK_BYTES * left <= |buf|
    ensures done + ChunksAt(buf, p, left) == done + [ChunkAt(buf, p)] + ChunksAt(buf, p + CHUNK_BYTES, left - 1)
  {
  }

  method NextChunk(r: Reader, ghost left: nat, ghost done: seq<Chunk>, ghost whole: seq<Chunk>) returns (c: Chunk)
    requires r.Valid() && r.ok && left > 0 && r.p + CHUNK_BYTES * left <= |r.buf|
    requires done + ChunksAt(r.buf, r.p, left) == whole
    modifies r
    ensures r.Valid() && r.ok && r.p == old(r.p) + CHUNK_BYTES
    ensures r.p + CHUNK_BYTES * (left - 1) == old(r.p) + CHUNK_BYTES * left
    ensures done + [c] + ChunksAt(r.buf, r.p, left - 1) == whole
  {
    ChunkDone(done, r.buf, r.p, left);
    c := ReadChunk(r);
  }

  method ReadChunks(r: Reader, count: nat) returns (chunks: seq<Chunk>)
    requires r.Valid() && r.ok && r.p + CHUNK_BYTES * count <= |r.buf|
    modifies r
    ensures r.Valid() && r.ok && r.p == old(r.p) + CHUNK_BYTES * count
    ensures chunks == ChunksAt(r.buf, old(r.p), count)
  {
    chunks := [];
    ghost var whole := ChunksAt(r.buf, r.p, count);
    for i := 0 to count
      invariant r.Valid() && r.ok
      invariant r.p + CHUNK_BYTES * (count - i) == old(r.p) + CHUNK_BYTES * count
      invariant chunks + ChunksAt(r.buf, r.p, count - i) == whole
    {
      var c := NextChunk(r, count - i, chunks, whole);
      chunks := chunks + [c];
    }
    assert chunks + [] == chunks;
  }

  method ReadText(r: Reader) returns (s: Bytes)
    requires r.Valid()
    modifies r
    ensures r.Valid() && r.ok == (old(r.ok) && TextAt(r.buf, old(r.p)).Got?)
    ensures r.ok ==> TextAt(r.buf, old(r.p)) == Got(s, r.p)
  {
    var n := ReadWord(r);
    var fits := r.Need(n);
    if !fits {
      return [];
    }
    s := r.Take(n);
  }

  /** One more text moves from what is left to what is done, or the whole read fails. */
  lemma TextDone(done: seq<Bytes>, buf: Bytes, p: nat, left: nat)
    requires left > 0
    ensures var first := TextAt(buf, p);
      Prepend(done, TextsAt(buf, p, left))
      == if first.Short? then Short else Prepend(done + [first.value], TextsAt(buf, first.end, left - 1))
  {
    var first := TextAt(buf, p);
    if first.Got? && TextsAt(buf, first.end, left - 1).Got? {
      var rest := TextsAt(buf, first.end, left - 1).value;
      assert done + ([first.value] + rest) == done + [first.value] + rest;
    }
  }

  lemma PrependNothing<T>(g: Got<seq<T>>)
    ensures Prepend([], g) == g
  {
    if g.Got? {
      assert [] + g.value == g.value;
    }
  }

  /** After a read has failed every later one fails too, so the loop runs to its end whatever happens. */
  method ReadTexts(r: Reader, count: nat) returns (texts: seq<Bytes>)
    requires r.Valid() && r.ok
    modifies r
    ensures r.Valid() && r.ok == TextsAt(r.buf, old(r.p), count).Got?
    ensures r.ok ==> TextsAt(r.buf, old(r.p), count) == Got(texts, r.p)
  {
    texts := [];
    PrependNothing(TextsAt(r.buf, r.p, count));
    for i := 0 to count
      invariant r.Valid() && |texts| == i
      invariant TextsAt(r.buf, old(r.p), count)
             == if r.ok then Prepend(texts, TextsAt(r.buf, r.p, count - i)) else Short
    {
      TextDone(texts, r.buf, r.p, count - i);
      var s := ReadText(r);
      texts := texts + [s];
    }
    assert texts + [] == texts;
  }

  method ReadMaterials(r: Reader, limit: nat) returns (ok: bool, materials: seq<Bytes>)
    requires r.Valid()
    modifies r
    ensures r.Valid() && (r.ok ==> old(r.ok))
    ensures (ok && r.ok) == (old(r.ok) && MaterialsAt(r.buf, old(r.p), limit).Got?)
    ensures ok && r.ok ==> MaterialsAt(r.buf, old(r.p), limit) == Got(materials, r.p)
  {
    var n := ReadWord(r);
    if !r.ok || n > (|r.buf| - r.p) / MATERIAL_BYTES {
      return false, [];
    }
    materials := ReadTexts(r, n);
    if |materials| > limit {
      materials := materials[..limit];
    }
    ok := true;
  }

  method ReadAppearance(r: Reader, limit: nat) returns (ok: bool, a: Appearance)
    requires r.Valid()
    modifies r
    ensures r.Valid()
    ensures (ok && r.ok) == (old(r.ok) && AppearanceAt(r.buf, old(r.p), limit).Got?)
    ensures ok && r.ok ==> AppearanceAt(r.buf, old(r.p), limit) == Got(a, r.p)
  {
    var name := ReadText(r);
    var fits, materials := ReadMaterials(r, limit);
    return fits, Appearance(name, materials);
  }

  lemma AppearanceDone(done: seq<Appearance>, buf: Bytes, p: nat, left: nat, limit: nat)
    requires left > 0
    ensures var first := AppearanceAt(buf, p, limit);
      Prepend(done, AppearancesAt(buf, p, left, limit))
      == if first.Short? then Short
         else Prepend(done + [first.value], AppearancesAt(buf, first.end, left - 1, limit))
  {
    var first := AppearanceAt(buf, p, limit);
    if first.Got? && AppearancesAt(buf, first.end, left - 1, limit).Got? {
      var rest := AppearancesAt(buf, first.end, left - 1, limit).value;
      assert done + ([first.value] + rest) == done + [first.value] + rest;
    }
  }

  method ReadAppearances(r: Reader, count: nat, limit: nat) returns (ok: bool, appearances: seq<Appearance>)
    requires r.Valid() && r.ok
    modifies r
    ensures r.Valid() && (ok && r.ok) == AppearancesAt(r.buf, old(r.p), count, limit).Got?
    ensures ok && r.ok ==> AppearancesAt(r.buf, old(r.p), count, limit) == Got(appearances, r.p)
  {
    appearances := [];
    PrependNothing(AppearancesAt(r.buf, r.p, count, limit));
    for i := 0 to count
      invariant r.Valid() && |appearances| == i
      invariant AppearancesAt(r.buf, old(r.p), count, limit)
             == if r.ok then Prepend(appearances, AppearancesAt(r.buf, r.p, count - i, limit)) else Short
    {
      AppearanceDone(appearances, r.buf, r.p, count - i, limit);
      var fits, a := ReadAppearance(r, limit);
      if !fits {
        return false, appearances;
      }
      appearances := appearances + [a];
    }
    assert appearances + [] == appearances;
    ok := true;
  }

  /** The fields in front of a record's chunks: hash, level count, the two counts and the box. */
  method ReadHeader(r: Reader) returns (hash: MeshHash, lodCount: Word, chunks: Word, appearances: Word, box: Box)
    requires r.Valid() && r.ok
    modifies r
    ensures r.Valid() && r.ok == (old(r.p) + RECORD_HEADER <= |r.buf|)
    ensures r.ok ==> r.p == old(r.p) + RECORD_HEADER && hash == HashAt(r.buf, old(r.p))
    ensures r.ok ==> lodCount == WordAt(r.buf, old(r.p) + 8) && chunks == WordAt(r.buf, old(r.p) + 12)
    ensures r.ok ==> appearances == WordAt(r.buf, old(r.p) + 16) && box == BoxAt(r.buf, old(r.p) + 20)
  {
    if r.p + 8 <= |r.buf| {
      RdBound(r.buf[r.p..r.p + 8]);
      Widths();
    }
    hash := r.U64();
    lodCount := ReadWord(r);
    chunks := ReadWord(r);
    appearances := ReadWord(r);
    box := ReadBox(r);
  }

  /** The two lists behind the header. */
  method ReadLists(r: Reader, chunkCount: nat, appearanceCount: nat)
    returns (ok: bool, chunks: seq<Chunk>, appearances: seq<Appearance>)
    requires r.Valid() && r.ok && r.p + CHUNK_BYTES * chunkCount <= |r.buf|
    modifies r
    ensures r.Valid() && chunks == ChunksAt(r.buf, old(r.p), chunkCount)
    ensures var rest := AppearancesAt(r.buf, old(r.p) + CHUNK_BYTES * chunkCount, appearanceCount, chunkCount);
      ok == rest.Got? && (ok ==> r.ok && rest == Got(appearances, r.p))
  {
    chunks := ReadChunks(r, chunkCount);
    ok, appearances := ReadAppearances(r, appearanceCount, chunkCount);
    ok := ok && r.ok;
  }

  /** What a record reads to, by the fields of its header and the position after it. */
  predicate ReadsTo(buf: Bytes, body: nat, hash: MeshHash, lodCount: Word, box: Box, chunks: nat, appearances: nat,
                    g: Got<Mesh>) {
    && body <= |buf|
    && if !CountsFit(chunks, appearances, |buf| - body) then g == Short
       else
         && body + CHUNK_BYTES * chunks <= |buf|
         && match AppearancesAt(buf, body + CHUNK_BYTES * chunks, appearances, chunks)
            case Short => g == Short
            case Got(value, end) =>
              g == Got(Mesh(hash, AtLeastOne(lodCount), box, ChunksAt(buf, body, chunks), value), end)
  }

  lemma MeshByHeader(buf: Bytes, p: nat, hash: MeshHash, lodCount: Word, chunks: nat, appearances: nat, box: Box)
    requires p + RECORD_HEADER <= |buf| && hash == HashAt(buf, p) && lodCount == WordAt(buf, p + 8)
    requires chunks == WordAt(buf, p + 12) && appearances == WordAt(buf, p + 16) && box == BoxAt(buf, p + 20)
    ensures ReadsTo(buf, p + RECORD_HEADER, hash, lodCount, box, chunks, appearances, MeshAt(buf, p))
  {
    var body := p + RECORD_HEADER;
    if CountsFit(chunks, appearances, |buf| - body) {
      MeshFromParts(buf, p, chunks, appearances, AppearancesAt(buf, body + CHUNK_BYTES * chunks, appearances, chunks));
    }
  }

  /** The guard on the counts, and the lists. */
  method ReadBody(r: Reader, hash: MeshHash, lodCount: Word, box: Box, chunkCount: nat, appearanceCount: nat,
                  ghost g: Got<Mesh>) returns (ok: bool, m: Mesh)
    requires r.Valid() && r.ok && ReadsTo(r.buf, r.p, hash, lodCount, box, chunkCount, appearanceCount, g)
    modifies r
    ensures r.Valid() && ok == g.Got? && (ok ==> r.ok && g == Got(m, r.p))
  {
    m := Mesh(hash, lodCount, box, [], []);
    if !CountsFit(chunkCount, appearanceCount, |r.buf| - r.p) {
      return false, m;
    }
    var lods := if lodCount == 0 then 1 else lodCount;
    var fits, chunks, appearances := ReadLists(r, chunkCount, appearanceCount);
    ok := fits;
    m := Mesh(hash, lods, box, chunks, appearances);
  }

  method Deserialize(r: Reader) returns (ok: bool, m: Mesh)
    requires r.Valid() && r.ok
    modifies r
    ensures r.Valid() && ok == MeshAt(r.buf, old(r.p)).Got?
    ensures ok ==> r.ok && MeshAt(r.buf, old(r.p)) == Got(m, r.p)
  {
    ghost var start, g := r.p, MeshAt(r.buf, r.p);
    var hash, lodCount, chunkCount, appearanceCount, box := ReadHeader(r);
    if !r.ok {
      return false, Mesh(hash, lodCount, box, [], []);
    }
    MeshByHeader(r.buf, start, hash, lodCount, chunkCount, appearanceCount, box);
    ok, m := ReadBody(r, hash, lodCount, box, chunkCount, appearanceCount, g);
  }
}
