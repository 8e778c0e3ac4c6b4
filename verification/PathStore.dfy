/** The path cache of src/paths.cpp as the object it is: fields updated by open, flush, close, mark
    and add. Each method takes the state exactly where the specification's step takes it. */
module PathStore {
  import opened Bytes
  import opened Cursor
  import opened PathFile
  import opened PathCache
  import opened PathCacheSafety
  import PathText

  method PutDigests(start: Bytes, digests: seq<Digest>) returns (out: Bytes)
    ensures out == start + EncodeDigests(digests)
  {
    out := start;
    for i := 0 to |digests|
      invariant out + EncodeDigests(digests[i..]) == start + EncodeDigests(digests)
    {
      assert digests[i..][1..] == digests[i + 1..];
      PutFirst(out, Put64(digests[i]), EncodeDigests(digests[i + 1..]));
      out := out + Put64(digests[i]);
    }
  }

  method PutPaths(start: Bytes, paths: seq<Path>) returns (out: Bytes)
    ensures out == start + EncodePaths(paths)
  {
    out := start;
    for i := 0 to |paths|
      invariant out + EncodePaths(paths[i..]) == start + EncodePaths(paths)
    {
      var record := Put32(|paths[i]|) + paths[i];
      PutFirst(out, record, EncodePaths(paths[i + 1..]));
      out := out + record;
    }
  }

  /** The image a flush writes: the header and its two loops. */
  method BuildImage(digests: seq<Digest>, paths: seq<Path>) returns (out: Bytes)
    ensures out == Encode(Image(digests, paths))
  {
    out := Put32(MAGIC) + Put32(VERSION) + Put32(|digests|) + Put32(|paths|);
    out := PutDigests(out, digests);
    out := PutPaths(out, paths);
  }

  lemma LearnSnoc(dict: Dict, records: seq<Path>, record: Path, hash: Hash)
    ensures LearnAll(dict, records + [record], hash) == Learn(LearnAll(dict, records, hash), record, hash)
    ensures Refused(records + [record]) == Refused(records) + (if Usable(record) then 0 else 1)
  {
    assert (records + [record])[..|records|] == records;
  }

  lemma NextFits(buf: Bytes, at: nat, left: nat, n: nat)
    requires left > 0 && at + 4 + n <= |buf| && Rd(buf[at..at + 4]) == n
    ensures ReadRecords(buf[at..], left) == [buf[at + 4..at + 4 + n]] + ReadRecords(buf[at + 4 + n..], left - 1)
  {
    var rest := buf[at..];
    assert rest[..4] == buf[at..at + 4];
    assert rest[4..4 + n] == buf[at + 4..at + 4 + n] && rest[4 + n..] == buf[at + 4 + n..];
  }

  lemma NextStops(buf: Bytes, at: nat, left: nat)
    requires at <= |buf| && (|buf| - at < 4 || |buf| - at - 4 < Rd(buf[at..at + 4]))
    ensures ReadRecords(buf[at..], left) == []
  {
    if |buf| - at >= 4 {
      assert buf[at..][..4] == buf[at..at + 4];
    }
  }

  /** The records read so far, in front of those still to be read, make up the whole. */
  ghost predicate Reading(done: seq<Path>, buf: Bytes, p: nat, left: nat, whole: seq<Path>) {
    p <= |buf| && done + ReadRecords(buf[p..], left) == whole
  }

  /** One record of the loop in load_from_disk, or the end of the walk. */
  method NextRecord(r: Reader, ghost left: nat, ghost done: seq<Path>, ghost whole: seq<Path>)
    returns (more: bool, s: Path)
    requires r.Valid() && r.ok && left > 0 && Reading(done, r.buf, r.p, left, whole)
    modifies r
    ensures r.Valid() && (more ==> r.ok)
    ensures if more then Reading(done + [s], r.buf, r.p, left - 1, whole) else done == whole
  {
    ghost var at := r.p;
    var n := r.U32();
    more := r.Need(n);
    if !more {
      NextStops(r.buf, at, left);
      assert done + [] == done;
      return false, [];
    }
    NextFits(r.buf, at, left, n);
    s := r.Take(n);
    assert done + ([s] + ReadRecords(r.buf[r.p..], left - 1)) == done + [s] + ReadRecords(r.buf[r.p..], left - 1);
  }

  lemma ReadingEnds(done: seq<Path>, buf: Bytes, p: nat, whole: seq<Path>)
    requires Reading(done, buf, p, 0, whole)
    ensures done == whole
  {
    assert done + [] == done;
  }

  /** The record loop of load_from_disk: it stops at the first record that does not fit, counts what
      it read and what it refused, and interns the rest first writer first. */
  method LoadRecords(buf: Bytes, start: nat, declared: nat, before: Dict, hash: Hash)
    returns (dict: Dict, loaded: nat, refused: nat)
    requires start <= |buf|
    ensures var records := ReadRecords(buf[start..], declared);
      dict == LearnAll(before, records, hash) && loaded == |records| && refused == Refused(records)
  {
    var r := new Reader(buf, start);
    dict, loaded, refused := before, 0, 0;
    ghost var records: seq<Path> := [];
    ghost var whole := ReadRecords(buf[start..], declared);
    assert records + whole == whole;
    while loaded < declared && r.ok
      invariant r.Valid() && r.buf == buf && loaded <= declared && fresh(r) && r.ok
      invariant dict == LearnAll(before, records, hash)
      invariant loaded == |records| && refused == Refused(records)
      invariant Reading(records, buf, r.p, declared - loaded, whole)
      decreases declared - loaded
    {
      var more, s := NextRecord(r, declared - loaded, records, whole);
      if !more {
        return;
      }
      LearnSnoc(before, records, s, hash);
      records := records + [s];
      loaded := loaded + 1;
      if |s| == 0 || |s| > MAX_PATH_LENGTH {
        refused := refused + 1;
      } else {
        dict := Learn(dict, s, hash);
      }
    }
    ReadingEnds(records, buf, r.p, whole);
  }

  class PathStore {
    const hash: Hash
    var dict: Dict
    var enabled: bool
    var file: Name
    var harvested: set<Digest>
    var writtenPaths: nat
    var writtenArchives: nat
    var stale: bool
    var disk: map<Name, Bytes>
    ghost var known: map<Digest, set<Key>>
    ghost var images: map<Name, Image>
    ghost var covers: map<Name, map<Digest, set<Key>>>
    ghost var cut: bool

    ghost function View(): State
      reads this
    {
      State(dict, enabled, file, harvested, writtenPaths, writtenArchives, stale, disk, known, images, covers, cut)
    }

    /** The object stands where a run of the specification can bring it. */
    ghost predicate Valid()
      reads this
    {
      Reachable(View(), hash)
    }

    constructor (hash: Hash)
      ensures View() == Init && this.hash == hash && Valid()
    {
      InitReachable(hash);
      this.hash := hash;
      dict, enabled, file, harvested := [], false, "", {};
      writtenPaths, writtenArchives, stale, disk := 0, 0, false, map[];
      known, images, covers, cut := map[], map[], map[], false;
    }

    method AddPath(path: Path)
      modifies this
      ensures View() == Apply(old(View()), Add(path), hash)
      ensures path == [] || |path| > 1024 ==> View() == old(View())
      ensures old(Valid()) && Countable(View()) ==> Valid()
    {
      StaysReachable(View(), Add(path), hash);
      if |path| == 0 || |path| > MAX_PATH_LENGTH {
        return;
      }
      dict := Insert(dict, Rec(hash(path), path));
    }

    /** paths_add: a path is filed in its normal form. */
    method AddSpelled(raw: Bytes)
      modifies this
      ensures View() == Apply(old(View()), Add(PathText.Sanitize(raw)), hash)
      ensures old(Valid()) && Countable(View()) ==> Valid()
    {
      var canonical := PathText.SanitizePath(raw);
      AddPath(canonical);
    }

    method MarkHarvested(digest: Digest) returns (ok: bool)
      modifies this
      ensures View() == DoMark(old(View()), digest) && ok == old(enabled)
      ensures ok ==> harvested == old(harvested) + {digest} && known == old(known)[digest := Keys(dict)]
      ensures ok ==> View() == old(View()).(harvested := harvested, known := known)
      ensures old(Valid()) && Countable(View()) ==> Valid()
    {
      StaysReachable(View(), Mark(digest), hash);
      if !enabled {
        return false;
      }
      harvested := harvested + {digest};
      known := known[digest := Keys(dict)];
      ok := true;
    }

    /** The rename that replaces the file, and the bookkeeping after it. */
    method Replace(out: Bytes, ghost image: Image)
      modifies this
      ensures View() == old(View()).(
        disk := old(disk)[file := out],
        writtenPaths := |old(dict)| % U32, writtenArchives := |old(harvested)| % U32, stale := false,
        images := old(images)[file := image], covers := old(covers)[file := old(known)], cut := false)
    {
      disk := disk[file := out];
      writtenPaths := |dict| % U32;
      writtenArchives := |harvested| % U32;
      stale := false;
      images, covers, cut := images[file := image], covers[file := known], false;
    }

    method FlushCache(writeOk: bool) returns (ok: bool)
      modifies this
      ensures View() == DoFlush(old(View()), writeOk)
      ensures ok == (!old(enabled) || UpToDate(old(View())) || writeOk)
      ensures old(Valid()) && Countable(View()) ==> Valid()
    {
      StaysReachable(View(), Flush(writeOk), hash);
      if !enabled {
        return true;
      }
      if !stale && |dict| == writtenPaths && |harvested| == writtenArchives {
        return true;
      }
      var out := BuildImage(SortedDigests(harvested), PathsOf(dict));
      if !writeOk {
        return false;
      }
      Replace(out, ImageOf(View()));
      ok := true;
    }

    /** The judgement path_cache_open passes on what load_from_disk has read. */
    method Judge(ghost load: Load, digests: seq<Digest>, declared: nat, after: Dict, loaded: nat, refused: nat)
      requires harvested == {} && load.Loaded? && load.digests == digests && load.declared == declared
      requires after == LearnAll(dict, load.records, hash)
      requires loaded == |load.records| && refused == Refused(load.records)
      modifies this
      ensures View() == PathCache.Restore(old(View()), load, hash)
    {
      var wasEmpty, size := |dict| == 0, |dict|;
      var faithful := loaded == declared && refused == 0 && (!wasEmpty || |after| - size == loaded);
      assert faithful == Faithful(load, dict, after);
      dict := after;
      writtenPaths := loaded;
      if faithful {
        harvested := SetOf(digests);
        writtenArchives := |digests|;
        stale := false;
        known := if file in covers then covers[file] else map[];
      } else {
        harvested := {};
        writtenArchives := 0;
        stale := true;
      }
    }

    /** load_from_disk: header, digests, records. */
    method LoadFromDisk(buf: Bytes)
      requires harvested == {}
      modifies this
      ensures View() == PathCache.Restore(old(View()), Parse(buf), hash)
    {
      if |buf| >= TELL_LIMIT || |buf| < HEADER_BYTES {
        return;
      }
      if Rd(buf[..4]) != MAGIC || Rd(buf[4..8]) != VERSION {
        return;
      }
      var archives, declared := Rd(buf[8..12]), Rd(buf[12..16]);
      if archives > |buf[16..]| / 8 {
        return;
      }
      var digests := ReadDigests(buf[16..], archives);
      assert buf[16 + 8 * archives..] == buf[16..][8 * archives..];
      var after, loaded, refused := LoadRecords(buf, 16 + 8 * archives, declared, dict, hash);
      Judge(Parse(buf), digests, declared, after, loaded, refused);
    }

    /** The reset of path_cache_open, before it loads anything. */
    method Reset(name: Name)
      modifies this
      ensures View() == Fresh(old(View()), name) && harvested == {} && file == name && disk == old(disk)
    {
      file := name;
      harvested, enabled := {}, true;
      writtenPaths, writtenArchives, stale := 0, 0, false;
      known, cut := map[], false;
    }

    method OpenCache(name: Name, writeOk: bool, readOk: bool)
      modifies this
      ensures View() == DoOpen(old(View()), name, writeOk, readOk, hash)
      ensures old(Valid()) && Countable(View()) ==> Valid()
    {
      StaysReachable(View(), Open(name, writeOk, readOk), hash);
      var _ := FlushCache(writeOk);
      Reset(name);
      if name in disk && readOk {
        LoadFromDisk(disk[name]);
      }
    }

    method CloseCache(writeOk: bool)
      modifies this
      ensures View() == DoClose(old(View()), writeOk)
      ensures old(Valid()) && Countable(View()) ==> Valid()
    {
      StaysReachable(View(), Close(writeOk), hash);
      var _ := FlushCache(writeOk);
      harvested, enabled := {}, false;
      writtenPaths, writtenArchives, stale := 0, 0, false;
      known := map[];
    }

    /** The archives not yet harvested, in order: the total, and as many indices as the caller has
        room for. */
    method PendingArchives(archives: seq<Digest>, capacity: nat) returns (ok: bool, indices: seq<nat>, total: nat)
      ensures ok == enabled
      ensures ok ==> total == |Unharvested(archives, harvested)|
      ensures ok ==> indices == Unharvested(archives, harvested)[..if capacity < total then capacity else total]
      ensures Valid() ==> forall i :: 0 <= i < |archives| && i !in Unharvested(archives, harvested) ==>
                            archives[i] in known && known[archives[i]] <= Keys(dict)
    {
      SkippedAreCovered(View(), archives, hash);
      indices, total := [], 0;
      if !enabled {
        return false, [], 0;
      }
      ok := true;
      for i := 0 to |archives|
        invariant total == |Unharvested(archives[..i], harvested)|
        invariant indices == Unharvested(archives[..i], harvested)[..if capacity < total then capacity else total]
      {
        assert archives[..i + 1][..i] == archives[..i];
        if archives[i] !in harvested {
          if total < capacity {
            indices := indices + [i];
          }
          total := total + 1;
        }
      }
      assert archives[..|archives|] == archives;
    }
  }

  /** An archive that is not pending has every path known when it was last harvested in the
      dictionary, whatever crashes and cut files came between. */
  lemma SkippedAreCovered(s: State, archives: seq<Digest>, hash: Hash)
    ensures Reachable(s, hash) ==>
      forall i :: 0 <= i < |archives| && i !in Unharvested(archives, s.harvested) ==>
        archives[i] in s.known && s.known[archives[i]] <= Keys(s.dict)
  {
    if Reachable(s, hash) {
      forall i | 0 <= i < |archives| && i !in Unharvested(archives, s.harvested)
        ensures archives[i] in s.known && s.known[archives[i]] <= Keys(s.dict)
      {
        PendingExactly(archives, s.harvested, i);
        CoverageNeverOutrunsPaths(s, archives[i], hash);
      }
    }
  }

  function Unharvested(archives: seq<Digest>, harvested: set<Digest>): seq<nat> {
    if archives == [] then []
    else
      var n := |archives| - 1;
      Unharvested(archives[..n], harvested) + (if archives[n] in harvested then [] else [n])
  }

  /** The pending indices are in order. */
  predicate Ascending(indices: seq<nat>, bound: nat) {
    && (forall a :: 0 <= a < |indices| ==> indices[a] < bound)
    && forall a, b :: 0 <= a < b < |indices| ==> indices[a] < indices[b]
  }

  /** An index is pending exactly when its archive is not in the coverage, and the list is sorted. */
  lemma {:induction false} PendingExactly(archives: seq<Digest>, harvested: set<Digest>, i: nat)
    ensures i in Unharvested(archives, harvested) <==> i < |archives| && archives[i] !in harvested
    ensures Ascending(Unharvested(archives, harvested), |archives|)
  {
    if archives != [] {
      PendingExactly(archives[..|archives| - 1], harvested, i);
    }
  }

  /** Once marked and flushed to a whole file below the size limit, an archive is not pending after a
      crash and a reopen. */
  lemma MarkedIsNotPending(s: State, archives: seq<Digest>, i: nat, hash: Hash)
    requires Reachable(s, hash) && s.enabled && i < |archives| && Countable(DoMark(s, archives[i]))
    requires var t := DoFlush(DoMark(s, archives[i]), true);
      Whole(t) && |t.disk[t.file]| < TELL_LIMIT
    ensures var t := DoFlush(DoMark(s, archives[i]), true);
      i !in Unharvested(archives, Restarted(t, t.file, hash).harvested)
  {
    var t := DoFlush(DoMark(s, archives[i]), true);
    MarkSurvives(s, archives[i], hash);
    PendingExactly(archives, Restarted(t, t.file, hash).harvested, i);
  }

  /** A path added in one spelling is found under the key of any other: it is filed in the normal form
      they share, and looked up there. */
  lemma SpellingsShareAKey(s: State, raw: Bytes, other: Bytes, hash: Hash)
    requires DictOk(s.dict, hash) && PathText.AllAlike(raw, other) && Usable(PathText.Sanitize(raw))
    ensures var t := Apply(s, Add(PathText.Sanitize(raw)), hash);
      && hash(PathText.Sanitize(other)) in Keys(t.dict) && Keys(t.dict) == Keys(s.dict) + {hash(PathText.Sanitize(raw))}
      && PathText.Sanitize(PathText.Sanitize(raw)) == PathText.Sanitize(other)
  {
    var path := PathText.Sanitize(raw);
    PathText.SpellingsAgree(raw, other);
    PathText.SanitizeIdempotent(raw, hash);
    InsertKeeps(s.dict, Rec(hash(path), path), hash);
  }
}
