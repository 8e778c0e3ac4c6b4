/** Where the fields of the two cache files stand, in plain offsets. Reading and writing could agree
    with each other on any order of fields; these say which order it is. */
module FileLayout {
  import opened Bytes
  import opened PathFile
  import opened MeshRecord
  import MeshFile

  // ---------------------------------------------------------------- the path cache

  lemma {:induction false} DigestStands(digests: seq<Digest>, rest: Bytes, i: nat)
    requires i < |digests|
    ensures |EncodeDigests(digests)| == 8 * |digests|
    ensures Rd((EncodeDigests(digests) + rest)[8 * i..8 * i + 8]) == digests[i]
    decreases i
  {
    var tail := EncodeDigests(digests[1..]) + rest;
    DigestsRestored(digests, rest);
    PutFirst(Put64(digests[0]), EncodeDigests(digests[1..]), rest);
    Parts(Put64(digests[0]), tail);
    var all := EncodeDigests(digests) + rest;
    if i == 0 {
      Put64ReadBack(digests[0]);
      assert all[0..8] == Put64(digests[0]);
    } else {
      DigestStands(digests[1..], rest, i - 1);
      assert all[8..] == tail;
      assert all[8 * i..8 * i + 8] == all[8..][8 * (i - 1)..8 * (i - 1) + 8];
    }
  }

  /** Bytes in front of path `j`. */
  function PathOffset(paths: seq<Path>, j: nat): nat
    requires j <= |paths|
  {
    if j == 0 then 0 else 4 + |paths[0]| + PathOffset(paths[1..], j - 1)
  }

  lemma {:induction false} PathStands(buf: Bytes, p: nat, paths: seq<Path>, j: nat)
    requires Spells(buf, p, EncodePaths(paths)) && j < |paths|
    requires forall i :: 0 <= i < |paths| ==> |paths[i]| < U32
    ensures var at := p + PathOffset(paths, j);
      at + 4 + |paths[j]| <= |buf| && Rd(buf[at..at + 4]) == |paths[j]|
      && buf[at + 4..at + 4 + |paths[j]|] == paths[j]
    decreases j
  {
    var first := Put32(|paths[0]|) + paths[0];
    SplitParts(buf, p, first, EncodePaths(paths[1..]));
    if j == 0 {
      FieldThenRest(buf, p, |paths[0]|, paths[0]);
    } else {
      PathStands(buf, p + |first|, paths[1..], j - 1);
    }
  }

  /** The path cache file: magic, version and the two counts; the digests, eight bytes each; then the
      paths, each behind its length. */
  lemma PathCacheLayout(image: Image)
    requires Fits(image)
    ensures var f := Encode(image);
      && |f| >= 16 + 8 * |image.digests|
      && Rd(f[..4]) == 0x4350_4652 && Rd(f[4..8]) == 1
      && Rd(f[8..12]) == |image.digests| && Rd(f[12..16]) == |image.paths|
      && forall i :: 0 <= i < |image.digests| ==> Rd(f[16 + 8 * i..24 + 8 * i]) == image.digests[i]
    ensures Spells(Encode(image), 16 + 8 * |image.digests|, EncodePaths(image.paths))
  {
    var digests, paths := EncodeDigests(image.digests), EncodePaths(image.paths);
    var f, content := Encode(image), Content(image);
    PutFirst(Header(image), digests, paths);
    HeaderFields(image, content);
    DigestsRestored(image.digests, paths);
    Parts(digests, paths);
    assert f[16..] == content;
    assert f[16 + |digests|..] == content[|digests|..] == paths;
    assert f[16 + |digests|..16 + |digests| + |paths|] == paths;
    forall i | 0 <= i < |image.digests|
      ensures Rd(f[16 + 8 * i..24 + 8 * i]) == image.digests[i]
    {
      DigestStands(image.digests, paths, i);
      assert f[16 + 8 * i..24 + 8 * i] == f[16..][8 * i..8 * i + 8];
    }
  }

  /** Of all files, the path cache loads exactly those that start as it writes them: short enough for
      ftell, with its magic and version, and with room for the digests they announce. */
  lemma PathCacheLoadsIff(file: Bytes)
    ensures Parse(file).Loaded? <==>
      && 16 <= |file| < 0x8000_0000
      && Rd(file[..4]) == 0x4350_4652 && Rd(file[4..8]) == 1
      && 16 + 8 * Rd(file[8..12]) <= |file|
  {
  }

  // ---------------------------------------------------------------- the mesh cache

  /** A chunk as it stands in the file: twelve words. */
  predicate ChunkStands(buf: Bytes, at: nat, c: Chunk) {
    && at + 48 <= |buf|
    && WordAt(buf, at) == c.index && WordAt(buf, at + 4) == c.lodMask && WordAt(buf, at + 8) == c.lod
    && WordAt(buf, at + 12) == c.vertices && WordAt(buf, at + 16) == c.indices
    && WordAt(buf, at + 20) == (if c.boundsValid then 1 else 0)
    && WordAt(buf, at + 24) == c.box.lo.x && WordAt(buf, at + 28) == c.box.lo.y && WordAt(buf, at + 32) == c.box.lo.z
    && WordAt(buf, at + 36) == c.box.hi.x && WordAt(buf, at + 40) == c.box.hi.y && WordAt(buf, at + 44) == c.box.hi.z
  }

  /** Chunk `i` stands in its place behind `p`, 48 bytes after the one before it. */
  predicate StandsAt(buf: Bytes, p: nat, chunks: seq<Chunk>, i: nat) {
    i < |chunks| && ChunkStands(buf, p + 48 * i, chunks[i])
  }

  ghost predicate AllStand(buf: Bytes, p: nat, chunks: seq<Chunk>) {
    forall i: nat :: i < |chunks| ==> StandsAt(buf, p, chunks, i)
  }

  lemma WordsStand(buf: Bytes, at: nat, c: Chunk)
    requires WordsAt(buf, at, ChunkWords(c))
    ensures ChunkStands(buf, at, c)
  {
    var w := ChunkWords(c);
    assert WordAt(buf, at + 4 * 0) == w[0] && WordAt(buf, at + 4 * 1) == w[1] && WordAt(buf, at + 4 * 2) == w[2];
    assert WordAt(buf, at + 4 * 3) == w[3] && WordAt(buf, at + 4 * 4) == w[4] && WordAt(buf, at + 4 * 5) == w[5];
    assert WordAt(buf, at + 4 * 6) == w[6] && WordAt(buf, at + 4 * 7) == w[7] && WordAt(buf, at + 4 * 8) == w[8];
    assert WordAt(buf, at + 4 * 9) == w[9] && WordAt(buf, at + 4 * 10) == w[10] && WordAt(buf, at + 4 * 11) == w[11];
  }

  lemma {:induction false} ChunkInPlace(buf: Bytes, p: nat, chunks: seq<Chunk>, i: nat)
    requires Spells(buf, p, EncodeChunks(chunks)) && i < |chunks|
    ensures StandsAt(buf, p, chunks, i)
    decreases i
  {
    ChunksPart(buf, p, chunks);
    if i == 0 {
      WordsRead(buf, p, ChunkWords(chunks[0]));
      WordsStand(buf, p, chunks[0]);
    } else {
      ChunkInPlace(buf, p + 48, chunks[1..], i - 1);
    }
  }

  lemma ChunksInPlace(buf: Bytes, p: nat, chunks: seq<Chunk>)
    requires Spells(buf, p, EncodeChunks(chunks))
    ensures AllStand(buf, p, chunks)
  {
    forall i: nat | i < |chunks|
      ensures StandsAt(buf, p, chunks, i)
    {
      ChunkInPlace(buf, p, chunks, i);
    }
  }

  /** A mesh record: the hash, the level count, the two counts and the box, in 44 bytes; the chunks, 48
      bytes each; then the appearances. */
  lemma RecordLayout(buf: Bytes, p: nat, m: Mesh)
    requires Storable(m) && Spells(buf, p, EncodeMesh(m))
    ensures p + 44 <= |buf| && HashAt(buf, p) == m.hash && WordAt(buf, p + 8) == m.lodCount
    ensures WordAt(buf, p + 12) == |m.chunks| && WordAt(buf, p + 16) == |m.appearances|
    ensures BoxAt(buf, p + 20) == m.box
    ensures AllStand(buf, p + 44, m.chunks)
    ensures Spells(buf, p + 44 + 48 * |m.chunks|, EncodeAppearances(m.appearances))
  {
    RecordParts(buf, p, m);
    RecordFields(buf, p, m);
    ChunksInPlace(buf, p + 44, m.chunks);
  }

  /** The mesh cache file: magic, version, fingerprint and count, four bytes of padding, then the
      records. */
  lemma MeshCacheLayout(fingerprint: MeshFile.Fingerprint, meshes: seq<Mesh>)
    requires |meshes| < U32
    ensures var f := MeshFile.EncodeFile(fingerprint, meshes);
      && |f| >= 24 && WordAt(f, 0) == 0x434D_4652 && WordAt(f, 4) == 1 && HashAt(f, 8) == fingerprint
      && WordAt(f, 16) == |meshes| && WordAt(f, 20) == 0
  {
    var f := MeshFile.EncodeFile(fingerprint, meshes);
    var header := MeshFile.FileHeader(fingerprint, |meshes|);
    MeshFile.FileIs(fingerprint, meshes);
    assert f[0..24] == header;
    MeshFile.HeaderSpelled(f, fingerprint, |meshes|);
    SplitParts(f, 0, EncodeWords([MeshFile.MAGIC, MeshFile.VERSION]), Put64(fingerprint) + EncodeWords([|meshes|, 0]));
    SplitParts(f, 8, Put64(fingerprint), EncodeWords([|meshes|, 0]));
    MeshFile.PairReads(f, 16, |meshes|, 0);
  }

  /** Of all files, the mesh cache loads exactly those with its magic and version and the fingerprint
      asked for, short enough for ftell. */
  lemma MeshCacheLoadsIff(file: Bytes, asked: MeshFile.Fingerprint)
    ensures MeshFile.Parse(file, asked).Loaded? <==>
      && 24 <= |file| < 0x8000_0000
      && WordAt(file, 0) == 0x434D_4652 && WordAt(file, 4) == 1 && HashAt(file, 8) == asked
  {
  }
}
