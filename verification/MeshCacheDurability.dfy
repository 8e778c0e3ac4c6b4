/** The mesh cache is worth having: what is acquired is kept, and what is kept is in the file whenever
    the cache believes it is, so that a flush or a close and a restart bring it back. */
module MeshCacheDurability {
  import opened Bytes
  import opened MeshRecord
  import opened MeshFile
  import opened MeshCache
  import opened MeshCacheSafety
  import opened Options

  function Hashes(meshes: seq<Mesh>): set<MeshHash> {
    set i | 0 <= i < |meshes| :: meshes[i].hash
  }

  lemma {:induction false} EntriesOfKeys(meshes: seq<Mesh>)
    ensures EntriesOf(meshes).Keys == Hashes(meshes)
  {
    if meshes != [] {
      var n := |meshes| - 1;
      EntriesOfKeys(meshes[..n]);
      assert Hashes(meshes) == Hashes(meshes[..n]) + {meshes[n].hash};
    }
  }

  /** Of several records of one hash the last is the entry. */
  lemma {:induction false} LastRecordWins(meshes: seq<Mesh>, i: nat)
    requires i < |meshes| && forall k :: i < k < |meshes| ==> meshes[k].hash != meshes[i].hash
    ensures meshes[i].hash in EntriesOf(meshes) && EntriesOf(meshes)[meshes[i].hash] == meshes[i]
    decreases |meshes|
  {
    var n := |meshes| - 1;
    if i < n {
      LastRecordWins(meshes[..n], i);
    }
  }

  /** A cache with nothing to write holds nothing, or only meshes of the image last flushed to its
      file, taken from archives of the same fingerprint. */
  predicate CleanOk(s: State, w: World) {
    s.enabled && !s.dirty && s.entries != map[] ==>
      && s.file in s.disk && s.file in s.images
      && w.fingerprint(s.images[s.file].source) == s.fingerprint
      && s.entries.Keys <= Hashes(s.images[s.file].meshes)
  }

  // ---------------------------------------------------------------- the steps

  lemma PrefixHashes(meshes: seq<Mesh>, written: seq<Mesh>)
    requires meshes <= RepairedAll(written)
    ensures Hashes(meshes) <= Hashes(written)
  {
    forall i | 0 <= i < |meshes|
      ensures meshes[i].hash in Hashes(written)
    {
      assert meshes[i] == RepairedAll(written)[i] == Repaired(written[i]);
      assert written[i].hash in Hashes(written);
    }
  }

  lemma OpenIsClean(s: State, d: Depot, name: Name, readOk: bool, w: World)
    requires Inv(s, w) && d in s.depots
    ensures CleanOk(DoOpenCache(s, d, name, readOk, w), w)
  {
    var asked := w.fingerprint(s.depots[d]);
    var load := LoadOf(s, name, readOk, asked);
    if load.Loaded? {
      var file, image := s.disk[name], s.images[name];
      var written := EncodeFile(w.fingerprint(image.source), image.meshes);
      assert FileOk(file, image, w) && file == written[..|file|];
      CutFileLoads(w.fingerprint(image.source), image.meshes, |file|, asked);
      EntriesOfKeys(load.meshes);
      PrefixHashes(load.meshes, image.meshes);
    }
  }

  lemma FlushedHashes(order: seq<MeshHash>, entries: map<MeshHash, Mesh>, source: seq<Archive>, w: World)
    requires Enumerates(order, entries) && AllBuiltFrom(entries, source, w)
    ensures entries.Keys == Hashes(Meshes(order, entries))
  {
    var meshes := Meshes(order, entries);
    forall i | 0 <= i < |order|
      ensures meshes[i].hash == order[i]
    {
      assert BuiltFrom(entries[order[i]], order[i], source, w);
    }
    forall h | h in entries
      ensures h in Hashes(meshes)
    {
      var i :| 0 <= i < |order| && order[i] == h;
      assert meshes[i].hash == h;
    }
  }

  lemma FlushIsClean(s: State, order: seq<MeshHash>, writeOk: bool, w: World)
    requires Inv(s, w) && CleanOk(s, w) && Enumerates(order, s.entries)
    ensures CleanOk(DoFlush(s, order, writeOk), w)
  {
    if s.enabled {
      FlushedHashes(order, s.entries, s.source, w);
    }
  }

  lemma StepKeepsClean(s: State, a: Action, w: World)
    requires Inv(s, w) && CleanOk(s, w) && Enabled(s, a)
    ensures CleanOk(Apply(s, a, w), w)
  {
    match a
    case OpenCache(d, name, readOk) => OpenIsClean(s, d, name, readOk, w);
    case Flush(order, writeOk) => FlushIsClean(s, order, writeOk, w);
    case _ =>
  }

  lemma {:induction false} RunKeepsClean(s: State, acts: seq<Action>, w: World)
    requires Sound(w) && Inv(s, w) && CleanOk(s, w) && ValidRun(s, acts, w)
    ensures CleanOk(Exec(s, acts, w), w)
    decreases |acts|
  {
    if acts != [] {
      StepKeepsInv(s, acts[0], w);
      StepKeepsClean(s, acts[0], w);
      RunKeepsClean(Apply(s, acts[0], w), acts[1..], w);
    }
  }

  lemma ReachableClean(s: State, w: World)
    requires Sound(w) && Reachable(s, w)
    ensures CleanOk(s, w)
  {
    var acts :| ValidRun(Init, acts, w) && Exec(Init, acts, w) == s;
    RunKeepsClean(Init, acts, w);
  }

  // ---------------------------------------------------------------- after a restart

  /** The file in use is as long as the image last flushed to it. */
  predicate Whole(s: State, w: World) {
    && s.file in s.disk && s.file in s.images
    && |s.disk[s.file]| == |EncodeFile(w.fingerprint(s.images[s.file].source), s.images[s.file].meshes)|
  }

  /** The process ends, and another opens the cache on a depot with the same archives. */
  function Reopened(t: State, d: Depot, file: Name, source: seq<Archive>, w: World): State {
    DoOpenCache(DoCrash(t).(depots := map[d := source]), d, file, true, w)
  }

  /** Callers see every one of the entries again. */
  predicate Returns(entries: map<MeshHash, Mesh>, back: map<MeshHash, Mesh>) {
    forall h :: h in entries ==> h in back && Public(back[h]) == Public(entries[h])
  }

  lemma BuiltAlike(a: map<MeshHash, Mesh>, b: map<MeshHash, Mesh>, source: seq<Archive>, w: World)
    requires AllBuiltFrom(a, source, w) && AllBuiltFrom(b, source, w) && a.Keys <= b.Keys
    ensures Returns(a, b)
  {
    forall h | h in a
      ensures h in b && Public(b[h]) == Public(a[h])
    {
      assert BuiltFrom(a[h], h, source, w) && BuiltFrom(b[h], h, source, w);
    }
  }

  lemma WholeFileReturns(file: Bytes, image: Image, entries: map<MeshHash, Mesh>, source: seq<Archive>, w: World)
    requires Sound(w) && FileOk(file, image, w) && AllBuiltFrom(entries, source, w)
    requires w.fingerprint(image.source) == w.fingerprint(source) && entries.Keys <= Hashes(image.meshes)
    requires |file| == |EncodeFile(w.fingerprint(image.source), image.meshes)| < TELL_LIMIT
    ensures var load := Parse(file, w.fingerprint(source));
      load.Loaded? && Returns(entries, EntriesOf(load.meshes))
  {
    var fingerprint := w.fingerprint(source);
    var load := Parse(file, fingerprint);
    assert file == EncodeFile(fingerprint, image.meshes)[..|file|];
    CutFileLoads(fingerprint, image.meshes, |file|, fingerprint);
    assert load.meshes == RepairedAll(image.meshes);
    RepairedHashes(image.meshes);
    EntriesOfKeys(load.meshes);
    LoadedIsBuilt(file, image, fingerprint, w);
    AllSame(EntriesOf(load.meshes), image.source, source, w);
    BuiltAlike(entries, EntriesOf(load.meshes), source, w);
  }

  lemma RepairedHashes(meshes: seq<Mesh>)
    ensures Hashes(RepairedAll(meshes)) == Hashes(meshes)
  {
    var repaired := RepairedAll(meshes);
    assert forall i :: 0 <= i < |meshes| ==> repaired[i].hash == meshes[i].hash;
  }

  /** Once a flush reports success, what is in memory is of the image last flushed to the file. */
  lemma FlushedIsOnFile(s: State, order: seq<MeshHash>, w: World)
    requires Sound(w) && Reachable(s, w) && s.enabled && Enumerates(order, s.entries) && s.entries != map[]
    ensures var t := DoFlush(s, order, true);
      && t.file == s.file && t.file in t.disk && t.file in t.images && FileOk(t.disk[t.file], t.images[t.file], w)
      && w.fingerprint(t.images[t.file].source) == w.fingerprint(s.source)
      && s.entries.Keys <= Hashes(t.images[t.file].meshes) && (s.dirty ==> Whole(t, w))
  {
    var t := DoFlush(s, order, true);
    ReachableInv(s, w);
    ReachableClean(s, w);
    FlushKeeps(s, order, true, w);
    FlushIsClean(s, order, true, w);
    assert t.file in t.disk ==> FileOk(t.disk[t.file], t.images[t.file], w);
  }

  lemma ReopenedEntries(t: State, d: Depot, file: Name, source: seq<Archive>, w: World)
    requires file in t.disk
    ensures var load := Parse(t.disk[file], w.fingerprint(source));
      Reopened(t, d, file, source, w).entries == if load.Loaded? then EntriesOf(load.meshes) else map[]
  {
  }

  lemma TooLong(file: Bytes, asked: Fingerprint)
    requires |file| >= TELL_LIMIT
    ensures !Parse(file, asked).Loaded?
  {
  }

  /** What a restart makes of a file that is as the cache last flushed it. */
  lemma ImageReturns(s: State, t: State, d: Depot, w: World)
    requires Sound(w) && AllBuiltFrom(s.entries, s.source, w)
    requires t.file in t.disk && t.file in t.images && FileOk(t.disk[t.file], t.images[t.file], w)
    requires w.fingerprint(t.images[t.file].source) == w.fingerprint(s.source)
    requires s.entries.Keys <= Hashes(t.images[t.file].meshes) && Whole(t, w)
    ensures var back := Reopened(t, d, t.file, s.source, w).entries;
      if |t.disk[t.file]| < TELL_LIMIT then Returns(s.entries, back) else back == map[]
  {
    ReopenedEntries(t, d, t.file, s.source, w);
    if |t.disk[t.file]| < TELL_LIMIT {
      WholeFileReturns(t.disk[t.file], t.images[t.file], s.entries, s.source, w);
    } else {
      TooLong(t.disk[t.file], w.fingerprint(s.source));
    }
  }

  /** After a flush that reports success and a restart, every entry is back as callers saw it, if the
      file is whole and ftell can measure it; if ftell cannot, none is. Anything new makes the flush
      write a whole file, so that only a cut behind a clean cache can lose entries. */
  lemma FlushSurvives(s: State, order: seq<MeshHash>, d: Depot, w: World)
    requires Sound(w) && Reachable(s, w) && s.enabled && Enumerates(order, s.entries) && s.entries != map[]
    ensures var t := DoFlush(s, order, true);
      var back := Reopened(t, d, s.file, s.source, w).entries;
      && (s.dirty ==> Whole(t, w))
      && (Whole(t, w) ==> if |t.disk[t.file]| < TELL_LIMIT then Returns(s.entries, back) else back == map[])
  {
    var t := DoFlush(s, order, true);
    EntriesAreBuilt(s, w);
    FlushedIsOnFile(s, order, w);
    if Whole(t, w) {
      ImageReturns(s, t, d, w);
    }
  }

  lemma EntriesAreBuilt(s: State, w: World)
    requires Sound(w) && Reachable(s, w) && s.enabled
    ensures AllBuiltFrom(s.entries, s.source, w)
  {
    ReachableInv(s, w);
  }

  /** A close writes what a flush writes. */
  lemma CloseSurvives(s: State, order: seq<MeshHash>, d: Depot, w: World)
    requires Sound(w) && Reachable(s, w) && s.enabled && Enumerates(order, s.entries) && s.entries != map[]
    ensures var t := DoFlush(s, order, true);
      Whole(t, w) && |t.disk[t.file]| < TELL_LIMIT ==>
        Returns(s.entries, Reopened(DoCloseCache(s, order, true), d, s.file, s.source, w).entries)
  {
    FlushSurvives(s, order, d, w);
    assert DoCrash(DoCloseCache(s, order, true)) == DoCrash(DoFlush(s, order, true));
  }

  // ---------------------------------------------------------------- acquiring

  lemma AcquireStores(s: State, d: Depot, h: MeshHash, w: World)
    requires d in s.depots && Usable(s, d) && w.build(s.depots[d], h).Ok?
    ensures var t := DoAcquire(s, d, h, w);
      && t.entries == (if h in s.entries then s.entries else s.entries[h := w.build(s.depots[d], h).mesh])
      && (h !in s.entries ==> t.dirty) && t.depots == s.depots && Usable(t, d)
  {
  }

  /** A mesh acquired through a cache that belongs to its depot is kept: callers get it from memory the
      next time, all other entries stay as they were, and a new one is known to be unwritten. */
  lemma AcquiredIsKept(s: State, d: Depot, h: MeshHash, w: World)
    requires Sound(w) && Reachable(s, w) && d in s.depots && Usable(s, d) && w.build(s.depots[d], h).Ok?
    ensures var t := DoAcquire(s, d, h, w);
      && h in t.entries && d in t.depots && Acquired(t, d, h, w) == Ok(t.entries[h])
      && Public(t.entries[h]) == Public(w.build(s.depots[d], h).mesh)
      && t.entries.Keys == s.entries.Keys + {h} && (forall k :: k in s.entries ==> t.entries[k] == s.entries[k])
      && (h !in s.entries ==> t.dirty)
  {
    AcquireMatchesBuild(s, d, h, w);
    AcquireStores(s, d, h, w);
  }

  /** Acquired, flushed or closed, restarted and opened again: the mesh is there without building it. */
  lemma AcquiredSurvives(s: State, d: Depot, h: MeshHash, order: seq<MeshHash>, w: World)
    requires Sound(w) && Reachable(s, w) && d in s.depots && Usable(s, d) && w.build(s.depots[d], h).Ok?
    requires h !in s.entries && Countable(DoAcquire(s, d, h, w)) && Enumerates(order, DoAcquire(s, d, h, w).entries)
    requires var t := DoFlush(DoAcquire(s, d, h, w), order, true);
      t.file in t.disk ==> |t.disk[t.file]| < TELL_LIMIT
    ensures var t := DoAcquire(s, d, h, w);
      var back := Reopened(DoFlush(t, order, true), d, t.file, t.source, w).entries;
      h in back && Public(back[h]) == Public(w.build(s.depots[d], h).mesh)
  {
    var t := DoAcquire(s, d, h, w);
    StaysReachable(s, Acquire(d, h), w);
    AcquiredIsKept(s, d, h, w);
    FlushSurvives(t, order, d, w);
  }

  /** Mounting drops the cache only when the archives of its own depot have another fingerprint; every
      other depot's cache, and one whose fingerprint has not changed, stays as it is. */
  lemma MountDropsIff(s: State, d: Depot, archives: seq<Archive>, w: World)
    requires d in s.depots
    ensures var t := DoMount(s, d, archives, w);
      && t.depots == s.depots[d := s.depots[d] + archives] && t.disk == s.disk
      && if Usable(s, d) && w.fingerprint(s.depots[d] + archives) != s.fingerprint
         then t.entries == map[] && !t.dirty && t.fingerprint == w.fingerprint(s.depots[d] + archives)
         else t == s.(depots := t.depots)
  {
  }

  /** A failed write changes nothing, so that the next flush tries again; a failed read opens an empty
      cache; a flush of a closed cache does nothing. */
  lemma FailuresChangeNothing(s: State, order: seq<MeshHash>, d: Depot, name: Name, writeOk: bool, w: World)
    requires d in s.depots && Enumerates(order, s.entries)
    ensures DoFlush(s, order, false) == s && (!s.enabled ==> DoFlush(s, order, writeOk) == s)
    ensures var t := DoOpenCache(s, d, name, false, w);
      t.entries == map[] && Usable(t, d) && t.file == name && !t.dirty && t.disk == s.disk
  {
  }
}
