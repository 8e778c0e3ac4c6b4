/** The path cache file of src/paths.cpp: its bytes, what they parse to, and what a truncated copy
    restores. */
module PathFile {
  import opened Bytes

  type Path = Bytes
  type Digest = d: nat | d < 0x1_0000_0000_0000_0000

  const MAGIC: nat := 0x43504652
  const VERSION: nat := 1
  const HEADER_BYTES: nat := 16
  const MAX_PATH_LENGTH: nat := 1024
  /** The first length that no longer fits the signed 32-bit result of ftell. */
  const TELL_LIMIT: nat := 0x8000_0000

  /** What a flush writes: digests in front, paths behind. */
  datatype Image = Image(digests: seq<Digest>, paths: seq<Path>)

  function EncodeDigests(digests: seq<Digest>): Bytes {
    if digests == [] then [] else Put64(digests[0]) + EncodeDigests(digests[1..])
  }

  function EncodePaths(paths: seq<Path>): Bytes {
    if paths == [] then [] else Put32(|paths[0]|) + paths[0] + EncodePaths(paths[1..])
  }

  function Header(image: Image): (h: Bytes)
    ensures |h| == HEADER_BYTES
  {
    Put32(MAGIC) + Put32(VERSION) + Put32(|image.digests|) + Put32(|image.paths|)
  }

  function Encode(image: Image): Bytes {
    Header(image) + EncodeDigests(image.digests) + EncodePaths(image.paths)
  }

  /** Counts and lengths that the 32-bit fields can hold. */
  predicate Fits(image: Image) {
    && |image.digests| < U32 && |image.paths| < U32
    && forall i :: 0 <= i < |image.paths| ==> |image.paths[i]| < U32
  }

  // ---------------------------------------------------------------- the reader

  datatype Load =
    | NoFile
    | BadHeader
    | Unreadable
    | Loaded(digests: seq<Digest>, declared: nat, records: seq<Path>)

  function ReadDigests(s: Bytes, count: nat): seq<Digest>
    requires 8 * count <= |s|
  {
    if count == 0 then [] else
      RdBound(s[..8]);
      Widths();
      [Rd(s[..8])] + ReadDigests(s[8..], count - 1)
  }

  /** The records that can be read whole, at most `count` of them. */
  function ReadRecords(s: Bytes, count: nat): seq<Path>
    decreases count
  {
    if count == 0 || |s| < 4 || |s| - 4 < Rd(s[..4]) then []
    else [s[4..4 + Rd(s[..4])]] + ReadRecords(s[4 + Rd(s[..4])..], count - 1)
  }

  function Parse(file: Bytes): Load {
    if |file| >= TELL_LIMIT then BadHeader
    else if |file| < HEADER_BYTES then NoFile
    else if Rd(file[..4]) != MAGIC || Rd(file[4..8]) != VERSION then BadHeader
    else
      var archives, declared, body := Rd(file[8..12]), Rd(file[12..16]), file[16..];
      if archives > |body| / 8 then BadHeader
      else Loaded(ReadDigests(body, archives), declared, ReadRecords(body[8 * archives..], declared))
  }

  // ---------------------------------------------------------------- round trip and truncation

  lemma FirstDigest(digest: Digest, tail: Bytes, count: nat)
    requires 8 * count <= |tail|
    ensures |Put64(digest)| == 8
    ensures ReadDigests(Put64(digest) + tail, count + 1) == [digest] + ReadDigests(tail, count)
  {
    Put64ReadBack(digest);
    Parts(Put64(digest), tail);
  }

  lemma {:induction false} DigestsRestored(digests: seq<Digest>, rest: Bytes)
    ensures |EncodeDigests(digests)| == 8 * |digests|
    ensures ReadDigests(EncodeDigests(digests) + rest, |digests|) == digests
  {
    if digests != [] {
      var tail := EncodeDigests(digests[1..]);
      DigestsRestored(digests[1..], rest);
      FirstDigest(digests[0], tail + rest, |digests| - 1);
      PutFirst(Put64(digests[0]), tail, rest);
      assert digests == [digests[0]] + digests[1..];
    }
  }

  /** The first record of a possibly cut stream is read whole or not at all. */
  lemma FirstRecord(path: Path, tail: Bytes, n: nat, count: nat)
    requires |path| < U32 && n <= 4 + |path| + |tail| && count > 0
    ensures var s, size := (Put32(|path|) + path + tail)[..n], 4 + |path|;
      ReadRecords(s, count) == if n < size then [] else [path] + ReadRecords(tail[..n - size], count - 1)
  {
    var s, size := (Put32(|path|) + path + tail)[..n], 4 + |path|;
    var length := Put32(|path|);
    var full := length + path + tail;
    if n >= 4 {
      Put32ReadBack(|path|);
      assert full[..4] == length && s[..4] == full[..4];
      if n >= size {
        assert s[4..size] == path && s[size..] == tail[..n - size];
      }
    }
  }

  lemma PrefixOfMore(paths: seq<Path>, got: seq<Path>)
    requires paths != [] && got <= paths[1..]
    ensures [paths[0]] + got <= paths
  {
    assert paths == [paths[0]] + paths[1..];
  }

  /** Cutting the records anywhere restores a prefix of the paths, a proper one unless nothing was cut. */
  lemma {:induction false} PathsRestored(paths: seq<Path>, n: nat)
    requires forall i :: 0 <= i < |paths| ==> |paths[i]| < U32
    requires n <= |EncodePaths(paths)|
    ensures var got := ReadRecords(EncodePaths(paths)[..n], |paths|);
      got <= paths && (|got| == |paths| <==> n == |EncodePaths(paths)|)
    decreases |paths|
  {
    if paths != [] {
      var size, tail := 4 + |paths[0]|, EncodePaths(paths[1..]);
      assert EncodePaths(paths) == Put32(|paths[0]|) + paths[0] + tail;
      FirstRecord(paths[0], tail, n, |paths|);
      if n >= size {
        PathsRestored(paths[1..], n - size);
        PrefixOfMore(paths, ReadRecords(tail[..n - size], |paths| - 1));
      }
    }
  }

  lemma FourFields(a: Bytes, b: Bytes, c: Bytes, d: Bytes, body: Bytes)
    requires |a| == |b| == |c| == |d| == 4
    ensures var f := a + b + c + d + body;
      f[..4] == a && f[4..8] == b && f[8..12] == c && f[12..16] == d && f[16..] == body
  {
  }

  lemma FieldsRead(a: nat, b: nat, c: nat, d: nat, body: Bytes)
    requires a < U32 && b < U32 && c < U32 && d < U32
    ensures var f := Put32(a) + Put32(b) + Put32(c) + Put32(d) + body;
      && |f| == 16 + |body|
      && Rd(f[..4]) == a && Rd(f[4..8]) == b && Rd(f[8..12]) == c && Rd(f[12..16]) == d && f[16..] == body
  {
    Put32ReadBack(a);
    Put32ReadBack(b);
    Put32ReadBack(c);
    Put32ReadBack(d);
    FourFields(Put32(a), Put32(b), Put32(c), Put32(d), body);
  }

  lemma HeaderFields(image: Image, body: Bytes)
    requires Fits(image)
    ensures var f := Header(image) + body;
      && Rd(f[..4]) == MAGIC && Rd(f[4..8]) == VERSION
      && Rd(f[8..12]) == |image.digests| && Rd(f[12..16]) == |image.paths| && f[16..] == body
  {
    FieldsRead(MAGIC, VERSION, |image.digests|, |image.paths|, body);
  }

  /** What the part of the body before the cut restores. */
  lemma BodyLoads(image: Image, cut: nat)
    requires Fits(image) && cut <= |EncodeDigests(image.digests)| + |EncodePaths(image.paths)|
    ensures |EncodeDigests(image.digests)| == 8 * |image.digests|
    ensures var body := (EncodeDigests(image.digests) + EncodePaths(image.paths))[..cut];
      8 * |image.digests| <= cut ==>
        && ReadDigests(body, |image.digests|) == image.digests
        && var got := ReadRecords(body[8 * |image.digests|..], |image.paths|);
           got <= image.paths
           && (|got| == |image.paths| <==> cut == 8 * |image.digests| + |EncodePaths(image.paths)|)
  {
    var digests, paths := EncodeDigests(image.digests), EncodePaths(image.paths);
    DigestsRestored(image.digests, []);
    assert digests + [] == digests;
    if |digests| <= cut {
      var rest := paths[..cut - |digests|];
      assert (digests + paths)[..cut] == digests + rest;
      assert (digests + rest)[|digests|..] == rest;
      DigestsRestored(image.digests, rest);
      PathsRestored(image.paths, cut - |digests|);
    }
  }

  lemma ParseReads(image: Image, body: Bytes)
    requires Fits(image) && HEADER_BYTES + |body| < TELL_LIMIT
    ensures Parse(Header(image) + body)
         == if |image.digests| > |body| / 8 then BadHeader
            else Loaded(ReadDigests(body, |image.digests|), |image.paths|,
                        ReadRecords(body[8 * |image.digests|..], |image.paths|))
  {
    HeaderFields(image, body);
  }

  lemma UnreadFile(file: Bytes)
    requires |file| < HEADER_BYTES || |file| >= TELL_LIMIT
    ensures !Parse(file).Loaded?
  {
  }

  function Content(image: Image): Bytes {
    EncodeDigests(image.digests) + EncodePaths(image.paths)
  }

  lemma PartOfContentLoads(image: Image, cut: nat)
    requires Fits(image) && cut <= |Content(image)| && HEADER_BYTES + cut < TELL_LIMIT
    ensures var load := Parse(Header(image) + Content(image)[..cut]);
      && (load.Loaded? ==>
            && load.digests == image.digests && load.declared == |image.paths|
            && load.records <= image.paths
            && (|load.records| == load.declared <==> cut == |Content(image)|))
      && (cut == |Content(image)| ==> load.Loaded?)
  {
    BodyLoads(image, cut);
    ParseReads(image, Content(image)[..cut]);
  }

  lemma CutBehindHeader(image: Image, n: nat)
    requires HEADER_BYTES <= n <= |Encode(image)|
    ensures Encode(image)[..n] == Header(image) + Content(image)[..n - HEADER_BYTES]
    ensures |Encode(image)| == HEADER_BYTES + |Content(image)|
  {
    PutFirst(Header(image), EncodeDigests(image.digests), EncodePaths(image.paths));
    CutBehind(Header(image), Content(image), n);
  }

  /** Any prefix of a flushed file loads nothing, or all its digests and a prefix of its paths that
      falls short of the declared count unless the file is whole. A whole file loads completely
      exactly when ftell can measure it. */
  lemma PrefixLoads(image: Image, n: nat)
    requires Fits(image) && n <= |Encode(image)|
    ensures var load := Parse(Encode(image)[..n]);
      && (load.Loaded? ==>
            && load.digests == image.digests && load.declared == |image.paths|
            && load.records <= image.paths
            && (|load.records| == load.declared <==> n == |Encode(image)|))
      && (n == |Encode(image)| ==> (load.Loaded? <==> n < TELL_LIMIT))
  {
    if HEADER_BYTES <= n < TELL_LIMIT {
      CutBehindHeader(image, n);
      PartOfContentLoads(image, n - HEADER_BYTES);
    } else {
      UnreadFile(Encode(image)[..n]);
    }
  }
}
