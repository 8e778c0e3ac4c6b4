/** The process-wide mesh cache of src/cache.cpp over whole sequences of process runs: depots that
    archives are mounted into, one cache that belongs to one of them, and the files between runs. */
module MeshCache {
  import opened Bytes
  import opened MeshRecord
  import opened MeshBuild
  import opened MeshFile
  import opened Options

  type Depot = nat
  type Name = string

  datatype Archive = Archive(path: string, content: Bytes)

  /** What reading a mesh document out of a set of archives gives. */
  datatype Document = Unreadable(status: int) | Decoded(facts: Facts)

  datatype Result = Failed(status: int) | Ok(mesh: Mesh)

  /** What mesh_build makes of a document. */
  function MadeFrom(d: Document, hash: MeshHash): Result {
    match d
    case Unreadable(status) => Failed(status)
    case Decoded(facts) => if Sized(facts) then Ok(Built(hash, facts)) else Failed(0)
  }

  /** The parts of the system the cache is built on: the fingerprint of a set of archives, what
      decoding a mesh document from it gives, and what mesh_build returns. */
  datatype World = World(
    fingerprint: seq<Archive> -> Fingerprint,
    document: (seq<Archive>, MeshHash) -> Document,
    build: (seq<Archive>, MeshHash) -> Result)

  /** mesh_build is a function of the document: deterministic in the archives and the hash. */
  ghost predicate Deterministic(w: World) {
    forall a, h {:trigger w.document(a, h)} :: w.build(a, h) == MadeFrom(w.document(a, h), h)
  }

  /** Equal fingerprints mean equal archives as far as any mesh can tell, and documents are as large
      as a segment can be. */
  ghost predicate Sound(w: World) {
    && Deterministic(w)
    && (forall a, b, h {:trigger w.fingerprint(a), w.document(b, h)} ::
          w.fingerprint(a) == w.fingerprint(b) ==> w.document(a, h) == w.document(b, h))
    && forall a, h :: w.document(a, h).Decoded? ==> Sized(w.document(a, h).facts)
  }

  function PublicResult(r: Result): Result {
    if r.Ok? then Ok(Public(r.mesh)) else r
  }

  /** A file's history: the archives its fingerprint was taken from and the meshes written to it. */
  datatype Image = Image(source: seq<Archive>, meshes: seq<Mesh>)

  /** The fields of the cache, the open depots and the files; and history: the archives the cache's
      fingerprint was taken from, and the image last flushed to each file. */
  datatype State = State(
    enabled: bool,
    owner: Option<Depot>,
    file: Name,
    fingerprint: Fingerprint,
    entries: map<MeshHash, Mesh>,
    dirty: bool,
    depots: map<Depot, seq<Archive>>,
    disk: map<Name, Bytes>,
    source: seq<Archive>,
    images: map<Name, Image>)

  const Init: State := State(false, None, "", 0, map[], false, map[], map[], [], map[])

  /** `order` is the order in which the hash table yields its entries; `writeOk` and `readOk` are the
      outcomes of the file operations. */
  datatype Action =
    | OpenDepot(depot: Depot, archives: seq<Archive>)
    | Mount(depot: Depot, archives: seq<Archive>)
    | CloseDepot(depot: Depot)
    | OpenCache(depot: Depot, name: Name, readOk: bool)
    | Acquire(depot: Depot, hash: MeshHash)
    | Flush(order: seq<MeshHash>, writeOk: bool)
    | CloseCache(order: seq<MeshHash>, writeOk: bool)
    | Crash
    | Truncate(name: Name, length: nat)

  /** The order lists every entry once. */
  predicate Enumerates(order: seq<MeshHash>, entries: map<MeshHash, Mesh>) {
    && (forall i :: 0 <= i < |order| ==> order[i] in entries)
    && (forall h :: h in entries ==> h in order)
    && (forall i, j :: 0 <= i < j < |order| ==> order[i] != order[j])
    && |order| == |entries|
  }

  /** Calls name open depots; an address is not handed out again while the cache still remembers it. */
  predicate Enabled(s: State, a: Action) {
    match a
    case OpenDepot(d, _) => d !in s.depots && s.owner != Some(d)
    case Mount(d, archives) => d in s.depots && archives != []
    case CloseDepot(d) => d in s.depots
    case OpenCache(d, _, _) => d in s.depots
    case Acquire(d, _) => d in s.depots
    case Flush(order, _) => Enumerates(order, s.entries)
    case CloseCache(order, _) => Enumerates(order, s.entries)
    case Crash => true
    case Truncate(name, length) => name in s.disk && length <= |s.disk[name]|
  }

  // ---------------------------------------------------------------- the steps

  /** Later records replace earlier ones of the same hash. */
  function EntriesOf(meshes: seq<Mesh>): map<MeshHash, Mesh> {
    if meshes == [] then map[]
    else
      var n := |meshes| - 1;
      EntriesOf(meshes[..n])[meshes[n].hash := meshes[n]]
  }

  function LoadOf(s: State, name: Name, readOk: bool, fingerprint: Fingerprint): Load {
    if name !in s.disk || !readOk then NoFile else Parse(s.disk[name], fingerprint)
  }

  function DoOpenCache(s: State, d: Depot, name: Name, readOk: bool, w: World): State
    requires d in s.depots
  {
    var load := LoadOf(s, name, readOk, w.fingerprint(s.depots[d]));
    s.(file := name, fingerprint := w.fingerprint(s.depots[d]), enabled := true, owner := Some(d),
       dirty := false, entries := if load.Loaded? then EntriesOf(load.meshes) else map[],
       source := s.depots[d])
  }

  function Meshes(order: seq<MeshHash>, entries: map<MeshHash, Mesh>): (m: seq<Mesh>)
    requires forall i :: 0 <= i < |order| ==> order[i] in entries
    ensures |m| == |order| && forall i :: 0 <= i < |m| ==> m[i] == entries[order[i]]
  {
    if order == [] then [] else [entries[order[0]]] + Meshes(order[1..], entries)
  }

  function DoFlush(s: State, order: seq<MeshHash>, writeOk: bool): State
    requires Enumerates(order, s.entries)
  {
    if !s.enabled || !s.dirty || !writeOk then s
    else
      var meshes := Meshes(order, s.entries);
      s.(disk := s.disk[s.file := EncodeFile(s.fingerprint, meshes)], dirty := false,
         images := s.images[s.file := Image(s.source, meshes)])
  }

  function DoCloseCache(s: State, order: seq<MeshHash>, writeOk: bool): State
    requires Enumerates(order, s.entries)
  {
    DoFlush(s, order, writeOk).(entries := map[], enabled := false, owner := None)
  }

  /** The cache of a depot whose archive set has changed forgets what it holds. */
  function DoInvalidate(s: State, d: Depot, w: World): State
    requires d in s.depots
  {
    if !s.enabled || s.owner != Some(d) || w.fingerprint(s.depots[d]) == s.fingerprint then s
    else s.(fingerprint := w.fingerprint(s.depots[d]), entries := map[], dirty := false, source := s.depots[d])
  }

  function DoMount(s: State, d: Depot, archives: seq<Archive>, w: World): State
    requires d in s.depots
  {
    DoInvalidate(s.(depots := s.depots[d := s.depots[d] + archives]), d, w)
  }

  predicate Usable(s: State, d: Depot) {
    s.enabled && s.owner == Some(d)
  }

  /** What mesh_acquire returns. */
  function Acquired(s: State, d: Depot, h: MeshHash, w: World): Result
    requires d in s.depots
  {
    if Usable(s, d) && h in s.entries then Ok(s.entries[h]) else w.build(s.depots[d], h)
  }

  function DoAcquire(s: State, d: Depot, h: MeshHash, w: World): State
    requires d in s.depots
  {
    var built := w.build(s.depots[d], h);
    if !Usable(s, d) || h in s.entries || built.Failed? then s
    else s.(entries := s.entries[h := built.mesh], dirty := true)
  }

  /** The process dies and another starts; only the files remain. */
  function DoCrash(s: State): State {
    Init.(disk := s.disk, images := s.images)
  }

  function Apply(s: State, a: Action, w: World): State
    requires Enabled(s, a)
  {
    match a
    case OpenDepot(d, archives) => s.(depots := s.depots[d := archives])
    case Mount(d, archives) => DoMount(s, d, archives, w)
    case CloseDepot(d) => s.(depots := s.depots - {d})
    case OpenCache(d, name, readOk) => DoOpenCache(s, d, name, readOk, w)
    case Acquire(d, h) => DoAcquire(s, d, h, w)
    case Flush(order, writeOk) => DoFlush(s, order, writeOk)
    case CloseCache(order, writeOk) => DoCloseCache(s, order, writeOk)
    case Crash => DoCrash(s)
    case Truncate(name, length) => s.(disk := s.disk[name := s.disk[name][..length]])
  }

  // ---------------------------------------------------------------- runs

  /** The entry count in the file is 32 bits wide. */
  predicate Countable(s: State) {
    |s.entries| < U32
  }

  predicate ValidRun(s: State, acts: seq<Action>, w: World)
    decreases |acts|
  {
    acts == [] ||
    (Enabled(s, acts[0]) && Countable(Apply(s, acts[0], w)) && ValidRun(Apply(s, acts[0], w), acts[1..], w))
  }

  function Exec(s: State, acts: seq<Action>, w: World): State
    requires ValidRun(s, acts, w)
    decreases |acts|
  {
    if acts == [] then s else Exec(Apply(s, acts[0], w), acts[1..], w)
  }

  ghost predicate Reachable(s: State, w: World) {
    exists acts :: ValidRun(Init, acts, w) && Exec(Init, acts, w) == s
  }

  lemma {:induction false} RunSnoc(s: State, acts: seq<Action>, a: Action, w: World)
    requires ValidRun(s, acts, w) && Enabled(Exec(s, acts, w), a) && Countable(Apply(Exec(s, acts, w), a, w))
    ensures ValidRun(s, acts + [a], w) && Exec(s, acts + [a], w) == Apply(Exec(s, acts, w), a, w)
    decreases |acts|
  {
    if acts == [] {
      assert acts + [a] == [a] && [a][1..] == [];
    } else {
      assert (acts + [a])[1..] == acts[1..] + [a];
      RunSnoc(Apply(s, acts[0], w), acts[1..], a, w);
    }
  }

  lemma InitReachable(w: World)
    ensures Reachable(Init, w)
  {
    assert ValidRun(Init, [], w) && Exec(Init, [], w) == Init;
  }

  lemma StaysReachable(s: State, a: Action, w: World)
    requires Enabled(s, a)
    ensures Reachable(s, w) && Countable(Apply(s, a, w)) ==> Reachable(Apply(s, a, w), w)
  {
    if Reachable(s, w) && Countable(Apply(s, a, w)) {
      var acts :| ValidRun(Init, acts, w) && Exec(Init, acts, w) == s;
      RunSnoc(Init, acts, a, w);
    }
  }
}
