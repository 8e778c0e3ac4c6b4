/** The mesh cache is invisible: whatever is opened, mounted, flushed, cut or restarted, acquiring a
    mesh gives what building it gives, and every entry belongs to the archives its fingerprint names. */
module MeshCacheSafety {
  import opened Bytes
  import opened MeshRecord
  import opened MeshBuild
  import opened MeshFile
  import opened MeshCache
  import opened Options

  /** The mesh is what building `hash` from these archives shows a caller. */
  ghost predicate BuiltFrom(m: Mesh, hash: MeshHash, source: seq<Archive>, w: World) {
    && m.hash == hash && Storable(m) && WellBuilt(m)
    && w.build(source, hash).Ok? && Public(m) == Public(w.build(source, hash).mesh)
  }

  ghost predicate AllBuiltFrom(entries: map<MeshHash, Mesh>, source: seq<Archive>, w: World) {
    forall h :: h in entries ==> BuiltFrom(entries[h], h, source, w)
  }

  ghost predicate ListBuiltFrom(meshes: seq<Mesh>, source: seq<Archive>, w: World) {
    forall i :: 0 <= i < |meshes| ==> BuiltFrom(meshes[i], meshes[i].hash, source, w)
  }

  /** The cache in memory holds what its fingerprint says, and its fingerprint is its depot's. */
  ghost predicate MemoryOk(s: State, w: World) {
    && (s.enabled <==> s.owner.Some?)
    && (s.enabled ==>
          && s.fingerprint == w.fingerprint(s.source) && AllBuiltFrom(s.entries, s.source, w)
          && (s.owner.value in s.depots ==> w.fingerprint(s.depots[s.owner.value]) == s.fingerprint))
  }

  /** A file is a prefix of an image flushed to it. */
  ghost predicate FileOk(file: Bytes, image: Image, w: World) {
    && |image.meshes| < U32 && ListBuiltFrom(image.meshes, image.source, w)
    && file <= EncodeFile(w.fingerprint(image.source), image.meshes)
  }

  ghost predicate FilesOk(s: State, w: World) {
    forall name :: name in s.disk ==> name in s.images && FileOk(s.disk[name], s.images[name], w)
  }

  ghost predicate Inv(s: State, w: World) {
    MemoryOk(s, w) && FilesOk(s, w) && Countable(s)
  }

  // ---------------------------------------------------------------- what building and storing keep

  lemma BuiltIsBuilt(archives: seq<Archive>, hash: MeshHash, w: World)
    requires Sound(w) && w.build(archives, hash).Ok?
    ensures BuiltFrom(w.build(archives, hash).mesh, hash, archives, w)
  {
    var d := w.document(archives, hash);
    BuiltSurvivesStorage(hash, d.facts);
  }

  lemma SameFingerprintSameBuild(a: seq<Archive>, b: seq<Archive>, hash: MeshHash, w: World)
    requires Sound(w) && w.fingerprint(a) == w.fingerprint(b)
    ensures w.build(a, hash) == w.build(b, hash)
  {
    assert w.document(a, hash) == w.document(b, hash);
  }

  lemma PublicIsStable(m: Mesh)
    requires Storable(m) && WellBuilt(m)
    ensures Public(Public(m)) == Public(m) && Storable(Public(m)) && WellBuilt(Public(m))
  {
    assert PublicChunks(PublicChunks(m.chunks)) == PublicChunks(m.chunks);
  }

  /** Reading back what was written keeps it built from the same archives. */
  lemma RestoredIsBuilt(m: Mesh, hash: MeshHash, source: seq<Archive>, w: World)
    requires BuiltFrom(m, hash, source, w)
    ensures Repaired(m) == Public(m) && BuiltFrom(Repaired(m), hash, source, w)
  {
    RepairsNothingIff(m);
    PublicIsStable(m);
  }

  lemma {:induction false} EntriesBuilt(meshes: seq<Mesh>, source: seq<Archive>, w: World)
    requires ListBuiltFrom(meshes, source, w)
    ensures AllBuiltFrom(EntriesOf(meshes), source, w)
  {
    if meshes != [] {
      EntriesBuilt(meshes[..|meshes| - 1], source, w);
    }
  }

  lemma AllSame(entries: map<MeshHash, Mesh>, a: seq<Archive>, b: seq<Archive>, w: World)
    requires Sound(w) && w.fingerprint(a) == w.fingerprint(b) && AllBuiltFrom(entries, a, w)
    ensures AllBuiltFrom(entries, b, w)
  {
    forall h | h in entries ensures BuiltFrom(entries[h], h, b, w) {
      SameFingerprintSameBuild(a, b, h, w);
    }
  }

  /** Whatever a file restores was built from the archives its fingerprint names. */
  lemma LoadedIsBuilt(file: Bytes, image: Image, asked: Fingerprint, w: World)
    requires FileOk(file, image, w) && Parse(file, asked).Loaded?
    ensures asked == w.fingerprint(image.source)
    ensures AllBuiltFrom(EntriesOf(Parse(file, asked).meshes), image.source, w)
  {
    var load := Parse(file, asked);
    var written := EncodeFile(w.fingerprint(image.source), image.meshes);
    assert file == written[..|file|];
    CutFileLoads(w.fingerprint(image.source), image.meshes, |file|, asked);
    forall i | 0 <= i < |load.meshes|
      ensures BuiltFrom(load.meshes[i], load.meshes[i].hash, image.source, w)
    {
      assert load.meshes[i] == RepairedAll(image.meshes)[i];
      RestoredIsBuilt(image.meshes[i], image.meshes[i].hash, image.source, w);
    }
    EntriesBuilt(load.meshes, image.source, w);
  }

  // ---------------------------------------------------------------- the steps

  lemma OpenKeeps(s: State, d: Depot, name: Name, readOk: bool, w: World)
    requires Sound(w) && Inv(s, w) && d in s.depots && Countable(DoOpenCache(s, d, name, readOk, w))
    ensures Inv(DoOpenCache(s, d, name, readOk, w), w)
  {
    var load := LoadOf(s, name, readOk, w.fingerprint(s.depots[d]));
    if load.Loaded? {
      LoadedIsBuilt(s.disk[name], s.images[name], w.fingerprint(s.depots[d]), w);
      AllSame(EntriesOf(load.meshes), s.images[name].source, s.depots[d], w);
    }
  }

  lemma MountKeeps(s: State, d: Depot, archives: seq<Archive>, w: World)
    requires Inv(s, w) && d in s.depots
    ensures Inv(DoMount(s, d, archives, w), w)
  {
  }

  lemma NewEntryIsBuilt(s: State, d: Depot, h: MeshHash, w: World)
    requires Sound(w) && MemoryOk(s, w) && d in s.depots && Usable(s, d)
    requires w.build(s.depots[d], h).Ok?
    ensures BuiltFrom(w.build(s.depots[d], h).mesh, h, s.source, w)
  {
    BuiltIsBuilt(s.depots[d], h, w);
    SameFingerprintSameBuild(s.depots[d], s.source, h, w);
  }

  lemma AddedEntry(entries: map<MeshHash, Mesh>, h: MeshHash, m: Mesh, source: seq<Archive>, w: World)
    requires AllBuiltFrom(entries, source, w) && BuiltFrom(m, h, source, w)
    ensures AllBuiltFrom(entries[h := m], source, w)
  {
  }

  lemma AcquireKeeps(s: State, d: Depot, h: MeshHash, w: World)
    requires Sound(w) && Inv(s, w) && d in s.depots && Countable(DoAcquire(s, d, h, w))
    ensures Inv(DoAcquire(s, d, h, w), w)
  {
    var built := w.build(s.depots[d], h);
    if Usable(s, d) && h !in s.entries && built.Ok? {
      NewEntryIsBuilt(s, d, h, w);
      AddedEntry(s.entries, h, built.mesh, s.source, w);
    }
  }

  lemma EnumeratedBuilt(order: seq<MeshHash>, entries: map<MeshHash, Mesh>, source: seq<Archive>, w: World)
    requires Enumerates(order, entries) && AllBuiltFrom(entries, source, w)
    ensures ListBuiltFrom(Meshes(order, entries), source, w)
  {
    var meshes := Meshes(order, entries);
    forall i | 0 <= i < |meshes| ensures BuiltFrom(meshes[i], meshes[i].hash, source, w) {
      assert BuiltFrom(entries[order[i]], order[i], source, w);
    }
  }

  lemma ReplacedFile(s: State, name: Name, file: Bytes, image: Image, w: World)
    requires FilesOk(s, w) && FileOk(file, image, w)
    ensures FilesOk(s.(disk := s.disk[name := file], images := s.images[name := image]), w)
  {
  }

  lemma FlushKeeps(s: State, order: seq<MeshHash>, writeOk: bool, w: World)
    requires Inv(s, w) && Enumerates(order, s.entries)
    ensures Inv(DoFlush(s, order, writeOk), w)
  {
    if s.enabled && s.dirty && writeOk {
      var image := Image(s.source, Meshes(order, s.entries));
      EnumeratedBuilt(order, s.entries, s.source, w);
      ReplacedFile(s, s.file, EncodeFile(s.fingerprint, image.meshes), image, w);
    }
  }

  lemma CutFileOk(file: Bytes, length: nat, image: Image, w: World)
    requires FileOk(file, image, w) && length <= |file|
    ensures FileOk(file[..length], image, w)
  {
  }

  lemma TruncateKeeps(s: State, name: Name, length: nat, w: World)
    requires Inv(s, w) && name in s.disk && length <= |s.disk[name]|
    ensures Inv(s.(disk := s.disk[name := s.disk[name][..length]]), w)
  {
    CutFileOk(s.disk[name], length, s.images[name], w);
    ReplacedFile(s, name, s.disk[name][..length], s.images[name], w);
    assert s.images[name := s.images[name]] == s.images;
  }

  lemma StepKeepsInv(s: State, a: Action, w: World)
    requires Sound(w) && Inv(s, w) && Enabled(s, a) && Countable(Apply(s, a, w))
    ensures Inv(Apply(s, a, w), w)
  {
    match a
    case OpenDepot(d, archives) =>
    case Mount(d, archives) => MountKeeps(s, d, archives, w);
    case CloseDepot(d) =>
    case OpenCache(d, name, readOk) => OpenKeeps(s, d, name, readOk, w);
    case Acquire(d, h) => AcquireKeeps(s, d, h, w);
    case Flush(order, writeOk) => FlushKeeps(s, order, writeOk, w);
    case CloseCache(order, writeOk) => FlushKeeps(s, order, writeOk, w);
    case Crash =>
    case Truncate(name, length) => TruncateKeeps(s, name, length, w);
  }

  lemma {:induction false} RunKeepsInv(s: State, acts: seq<Action>, w: World)
    requires Sound(w) && Inv(s, w) && ValidRun(s, acts, w)
    ensures Inv(Exec(s, acts, w), w)
    decreases |acts|
  {
    if acts != [] {
      StepKeepsInv(s, acts[0], w);
      RunKeepsInv(Apply(s, acts[0], w), acts[1..], w);
    }
  }

  lemma ReachableInv(s: State, w: World)
    requires Sound(w) && Reachable(s, w)
    ensures Inv(s, w)
  {
    var acts :| ValidRun(Init, acts, w) && Exec(Init, acts, w) == s;
    RunKeepsInv(Init, acts, w);
  }

  /** The assumptions can be met: a world in which every archive set holds the same empty mesh. */
  lemma SomeWorldIsSound() returns (w: World)
    ensures Sound(w) && forall a, h :: w.build(a, h).Ok?
  {
    var facts := Facts(ZERO_BOX, [], None, [], []);
    var document := (a: seq<Archive>, h: MeshHash) => Decoded(facts);
    w := World(a => 0, document, (a: seq<Archive>, h: MeshHash) => MadeFrom(Decoded(facts), h));
  }

  // ---------------------------------------------------------------- the theorems

  /** The cache is invisible: acquiring a mesh shows a caller what building it would, errors included. */
  lemma AcquireMatchesBuild(s: State, d: Depot, h: MeshHash, w: World)
    requires Sound(w) && Reachable(s, w) && d in s.depots
    ensures PublicResult(Acquired(s, d, h, w)) == PublicResult(w.build(s.depots[d], h))
  {
    ReachableInv(s, w);
    if Usable(s, d) && h in s.entries {
      assert BuiltFrom(s.entries[h], h, s.source, w);
      SameFingerprintSameBuild(s.source, s.depots[d], h, w);
    }
  }

  /** Whichever fingerprint asks, the file restores only meshes built from archives of that
      fingerprint. */
  ghost predicate RestoresOnlyItsOwn(file: Bytes, source: seq<Archive>, w: World) {
    forall asked :: Parse(file, asked).Loaded? ==>
      asked == w.fingerprint(source) && AllBuiltFrom(EntriesOf(Parse(file, asked).meshes), source, w)
  }

  /** Every entry in memory was built from the archives the cache's fingerprint names, and so was
      everything any file will ever restore. */
  lemma EntriesNameTheirArchives(s: State, w: World)
    requires Sound(w) && Reachable(s, w)
    ensures s.enabled ==> s.fingerprint == w.fingerprint(s.source) && AllBuiltFrom(s.entries, s.source, w)
    ensures forall name :: name in s.disk ==>
      name in s.images && RestoresOnlyItsOwn(s.disk[name], s.images[name].source, w)
  {
    ReachableInv(s, w);
    forall name | name in s.disk
      ensures name in s.images && RestoresOnlyItsOwn(s.disk[name], s.images[name].source, w)
    {
      forall asked | Parse(s.disk[name], asked).Loaded?
        ensures asked == w.fingerprint(s.images[name].source)
        ensures AllBuiltFrom(EntriesOf(Parse(s.disk[name], asked).meshes), s.images[name].source, w)
      {
        LoadedIsBuilt(s.disk[name], s.images[name], asked, w);
      }
    }
  }

  // ---------------------------------------------------------------- a flush survives a restart

  predicate Distinct(meshes: seq<Mesh>) {
    forall i, j :: 0 <= i < j < |meshes| ==> meshes[i].hash != meshes[j].hash
  }

  lemma {:induction false} EntriesOfDistinct(meshes: seq<Mesh>)
    requires Distinct(meshes)
    ensures forall i :: 0 <= i < |meshes| ==>
      meshes[i].hash in EntriesOf(meshes) && EntriesOf(meshes)[meshes[i].hash] == meshes[i]
    ensures forall h :: h in EntriesOf(meshes) ==> exists i :: 0 <= i < |meshes| && meshes[i].hash == h
  {
    if meshes != [] {
      var n := |meshes| - 1;
      EntriesOfDistinct(meshes[..n]);
      forall i | 0 <= i < |meshes|
        ensures meshes[i].hash in EntriesOf(meshes) && EntriesOf(meshes)[meshes[i].hash] == meshes[i]
      {
        assert i < n ==> meshes[..n][i] == meshes[i];
      }
      forall h | h in EntriesOf(meshes)
        ensures exists i :: 0 <= i < |meshes| && meshes[i].hash == h
      {
        if h in EntriesOf(meshes[..n]) {
          var i :| 0 <= i < n && meshes[..n][i].hash == h;
          assert meshes[i].hash == h;
        } else {
          assert meshes[n].hash == h;
        }
      }
    }
  }

  /** Entry `i` of the list is what callers see of the `i`-th entry in order. */
  ghost predicate Lists(meshes: seq<Mesh>, order: seq<MeshHash>, entries: map<MeshHash, Mesh>) {
    && Enumerates(order, entries) && |meshes| == |order|
    && forall i :: 0 <= i < |order| ==> meshes[i].hash == order[i] && meshes[i] == Public(entries[order[i]])
  }

  lemma ListedEntries(meshes: seq<Mesh>, order: seq<MeshHash>, entries: map<MeshHash, Mesh>)
    requires Lists(meshes, order, entries)
    ensures var back := EntriesOf(meshes);
      back.Keys == entries.Keys && forall h :: h in back ==> back[h] == Public(entries[h])
  {
    EntriesOfDistinct(meshes);
    forall h | h in entries
      ensures h in EntriesOf(meshes) && EntriesOf(meshes)[h] == Public(entries[h])
    {
      var i :| 0 <= i < |order| && order[i] == h;
      assert meshes[i].hash == h;
    }
  }

  lemma EntryReturns(m: Mesh, hash: MeshHash, source: seq<Archive>, w: World)
    requires BuiltFrom(m, hash, source, w)
    ensures Repaired(m) == Public(m) && Repaired(m).hash == hash
  {
    RepairsNothingIff(m);
  }

  lemma RestoredList(order: seq<MeshHash>, entries: map<MeshHash, Mesh>, source: seq<Archive>, w: World)
    requires Enumerates(order, entries) && AllBuiltFrom(entries, source, w)
    ensures Lists(RepairedAll(Meshes(order, entries)), order, entries)
  {
    var written, meshes := Meshes(order, entries), RepairedAll(Meshes(order, entries));
    forall i | 0 <= i < |order|
      ensures meshes[i].hash == order[i] && meshes[i] == Public(entries[order[i]])
    {
      assert written[i] == entries[order[i]] && meshes[i] == Repaired(written[i]);
      EntryReturns(written[i], order[i], source, w);
    }
  }

  /** What a flush writes restores, under its own fingerprint, the entries that were flushed. */
  lemma WrittenEntriesReturn(s: State, order: seq<MeshHash>, w: World)
    requires Inv(s, w) && s.enabled && Enumerates(order, s.entries)
    requires |EncodeFile(s.fingerprint, Meshes(order, s.entries))| < TELL_LIMIT
    ensures var load := Parse(EncodeFile(s.fingerprint, Meshes(order, s.entries)), s.fingerprint);
      load.Loaded? && Lists(load.meshes, order, s.entries)
  {
    FlushedImage(s, order, w);
    WholeFileLoads(s.fingerprint, Meshes(order, s.entries));
    RestoredList(order, s.entries, s.source, w);
  }

  /** The process ends after a flush, and another opens a depot with the same archives. */
  function Restarted(s: State, order: seq<MeshHash>, d: Depot): State
    requires Enumerates(order, s.entries)
  {
    DoCrash(DoFlush(s, order, true)).(depots := map[d := s.source])
  }

  lemma RestartedFile(s: State, order: seq<MeshHash>, d: Depot)
    requires s.enabled && s.dirty && Enumerates(order, s.entries)
    ensures var t := Restarted(s, order, d);
      && t.depots == map[d := s.source] && s.file in t.disk
      && t.disk[s.file] == EncodeFile(s.fingerprint, Meshes(order, s.entries))
  {
  }

  lemma OpensOn(s: State, d: Depot, name: Name, file: Bytes, w: World)
    requires d in s.depots && name in s.disk && s.disk[name] == file
    requires Parse(file, w.fingerprint(s.depots[d])).Loaded?
    ensures DoOpenCache(s, d, name, true, w).entries
         == EntriesOf(Parse(file, w.fingerprint(s.depots[d])).meshes)
  {
  }

  /** After a flush that succeeds and a restart, opening the cache on a depot with the same archives
      brings back every entry as callers saw it, as long as ftell can measure the file. */
  lemma FlushedCacheSurvives(s: State, order: seq<MeshHash>, d: Depot, w: World)
    requires Sound(w) && Reachable(s, w) && s.enabled && s.dirty && Enumerates(order, s.entries)
    requires |EncodeFile(s.fingerprint, Meshes(order, s.entries))| < TELL_LIMIT
    ensures d in Restarted(s, order, d).depots
    ensures var back := DoOpenCache(Restarted(s, order, d), d, s.file, true, w).entries;
      back.Keys == s.entries.Keys && forall h :: h in back ==> back[h] == Public(s.entries[h])
  {
    ReachableInv(s, w);
    RestartedFile(s, order, d);
    WrittenEntriesReturn(s, order, w);
    var file := EncodeFile(s.fingerprint, Meshes(order, s.entries));
    OpensOn(Restarted(s, order, d), d, s.file, file, w);
    ListedEntries(Parse(file, s.fingerprint).meshes, order, s.entries);
  }

  lemma FlushedImage(s: State, order: seq<MeshHash>, w: World)
    requires Inv(s, w) && s.enabled && Enumerates(order, s.entries)
    ensures AllStorable(Meshes(order, s.entries)) && |Meshes(order, s.entries)| < U32
  {
    EnumeratedBuilt(order, s.entries, s.source, w);
  }
}
