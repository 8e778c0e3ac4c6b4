/** The mesh cache of src/cache.cpp as the object it is. Each method takes the state exactly where the
    specification's step takes it. */
module MeshStore {
  import opened Bytes
  import opened Cursor
  import opened MeshRecord
  import opened MeshBuild
  import opened MeshFile
  import opened MeshCache
  import MeshCacheSafety
  import MeshCodec
  import opened Options

  // ---------------------------------------------------------------- the file

  lemma {:induction false} ConcatSnoc(records: seq<Bytes>, record: Bytes)
    ensures Concat(records + [record]) == Concat(records) + record
  {
    if records == [] {
      assert [record][1..] == [];
    } else {
      assert (records + [record])[1..] == records[1..] + [record];
      ConcatSnoc(records[1..], record);
      PutFirst(records[0], Concat(records[1..]), record);
    }
  }

  /** The record loop of a flush, in the table's order. */
  method PutRecords(start: Bytes, meshes: seq<Mesh>, ghost records: seq<Bytes>) returns (out: Bytes)
    requires |records| == |meshes|
    requires forall i :: 0 <= i < |records| ==> records[i] == EncodeMesh(meshes[i])
    ensures out == start + Concat(records)
  {
    out := start;
    assert records[..0] == [];
    for i := 0 to |meshes|
      invariant out == start + Concat(records[..i])
    {
      assert records[..i + 1] == records[..i] + [records[i]];
      ConcatSnoc(records[..i], records[i]);
      PutFirst(start, Concat(records[..i]), records[i]);
      out := MeshCodec.Serialize(out, meshes[i]);
    }
    assert records[..|meshes|] == records;
  }

  /** The image a flush writes: the header, then every entry in the table's order. */
  method BuildFile(fingerprint: Fingerprint, order: seq<MeshHash>, entries: map<MeshHash, Mesh>) returns (out: Bytes)
    requires forall i :: 0 <= i < |order| ==> order[i] in entries
    ensures out == EncodeFile(fingerprint, Meshes(order, entries))
  {
    var meshes := Meshes(order, entries);
    out := FileHeader(fingerprint, CountField(|meshes|));
    out := PutRecords(out, meshes, Records(meshes));
  }

  /** The meshes read so far, in front of those still to be read, make up the whole. */
  ghost predicate Reading(
      at: (Bytes, nat) -> Got<Mesh>, done: seq<Mesh>, buf: Bytes, p: nat, left: nat, whole: seq<Mesh>) {
    done + Items(at, buf, p, left) == whole
  }

  ghost predicate ReadsMeshes(at: (Bytes, nat) -> Got<Mesh>) {
    forall buf, p: nat {:trigger MeshAt(buf, p)} :: at(buf, p) == MeshAt(buf, p)
  }

  lemma ReadingEnds(at: (Bytes, nat) -> Got<Mesh>, done: seq<Mesh>, buf: Bytes, p: nat, whole: seq<Mesh>)
    requires Reading(at, done, buf, p, 0, whole)
    ensures done == whole
  {
  }

  /** One record of the loop in load_from_disk, or the end of the walk. */
  method NextMesh(
      r: Reader, ghost at: (Bytes, nat) -> Got<Mesh>, ghost left: nat, ghost done: seq<Mesh>, ghost whole: seq<Mesh>)
    returns (more: bool, m: Mesh)
    requires ReadsMeshes(at)
    requires r.Valid() && r.ok && left > 0 && Reading(at, done, r.buf, r.p, left, whole)
    modifies r
    ensures r.Valid() && (more ==> r.ok)
    ensures if more then Reading(at, done + [m], r.buf, r.p, left - 1, whole) else done == whole
  {
    more, m := MeshCodec.Deserialize(r);
  }

  /** The record loop of load_from_disk, on a cursor past the header. */
  method LoadLoop(r: Reader, declared: nat, ghost at: (Bytes, nat) -> Got<Mesh>, ghost whole: seq<Mesh>)
    returns (entries: map<MeshHash, Mesh>, loaded: nat)
    requires ReadsMeshes(at) && r.Valid() && r.ok && Reading(at, [], r.buf, r.p, declared, whole)
    modifies r
    ensures entries == EntriesOf(whole) && loaded == |whole|
  {
    entries, loaded := map[], 0;
    ghost var meshes: seq<Mesh> := [];
    while loaded < declared && r.ok
      invariant r.Valid() && r.ok && loaded <= declared
      invariant loaded == |meshes| && entries == EntriesOf(meshes)
      invariant Reading(at, meshes, r.buf, r.p, declared - loaded, whole)
      decreases declared - loaded
    {
      var more, m := NextMesh(r, at, declared - loaded, meshes, whole);
      if !more {
        return;
      }
      meshes := meshes + [m];
      entries := entries[m.hash := m];
      loaded := loaded + 1;
    }
    ReadingEnds(at, meshes, r.buf, r.p, whole);
  }

  /** The records of a file: loading stops at the first one that does not read whole. */
  method LoadEntries(buf: Bytes, start: nat, declared: nat) returns (entries: map<MeshHash, Mesh>, loaded: nat)
    requires start <= |buf|
    ensures var meshes := Items(MeshAt, buf, start, declared);
      entries == EntriesOf(meshes) && loaded == |meshes|
  {
    var r := new Reader(buf, start);
    ghost var whole := Items(MeshAt, buf, start, declared);
    assert [] + whole == whole;
    entries, loaded := LoadLoop(r, declared, MeshAt, whole);
  }

  // ---------------------------------------------------------------- the cache

  lemma FlushStaysReachable(s: State, order: seq<MeshHash>, writeOk: bool, w: World)
    requires Enumerates(order, s.entries)
    ensures Reachable(s, w) && Countable(DoFlush(s, order, writeOk)) ==> Reachable(DoFlush(s, order, writeOk), w)
  {
    StaysReachable(s, Flush(order, writeOk), w);
  }

  lemma OpenStaysReachable(s: State, d: Depot, name: Name, readOk: bool, w: World)
    requires d in s.depots
    ensures Reachable(s, w) && Countable(DoOpenCache(s, d, name, readOk, w)) ==>
      Reachable(DoOpenCache(s, d, name, readOk, w), w)
  {
    StaysReachable(s, OpenCache(d, name, readOk), w);
  }

  /** An acquire keeps the run going, and what it returns is what building shows. */
  lemma AcquireStaysReachable(s: State, d: Depot, hash: MeshHash, w: World)
    requires d in s.depots
    ensures Reachable(s, w) && Countable(DoAcquire(s, d, hash, w)) ==> Reachable(DoAcquire(s, d, hash, w), w)
    ensures Reachable(s, w) && Sound(w) ==>
      PublicResult(Acquired(s, d, hash, w)) == PublicResult(w.build(s.depots[d], hash))
  {
    StaysReachable(s, Acquire(d, hash), w);
    if Reachable(s, w) && Sound(w) {
      MeshCacheSafety.AcquireMatchesBuild(s, d, hash, w);
    }
  }

  class MeshStore {
    const world: World
    var enabled: bool
    var owner: Option<Depot>
    var file: Name
    var fingerprint: Fingerprint
    var entries: map<MeshHash, Mesh>
    var dirty: bool
    var depots: map<Depot, seq<Archive>>
    var disk: map<Name, Bytes>
    ghost var source: seq<Archive>
    ghost var images: map<Name, Image>

    ghost function View(): State
      reads this
    {
      State(enabled, owner, file, fingerprint, entries, dirty, depots, disk, source, images)
    }

    /** The object stands where a run of the specification can bring it. */
    ghost predicate Valid()
      reads this
    {
      Reachable(View(), world)
    }

    constructor (world: World)
      ensures View() == Init && this.world == world && Valid()
    {
      InitReachable(world);
      this.world := world;
      enabled, owner, file, fingerprint := false, None, "", 0;
      entries, dirty, depots, disk := map[], false, map[], map[];
      source, images := [], map[];
    }

    /** mesh_build on the archives of a depot. */
    method BuildFrom(depot: Depot, hash: MeshHash) returns (r: Result)
      requires Deterministic(world) && depot in depots
      ensures r == world.build(depots[depot], hash)
    {
      match world.document(depots[depot], hash)
      case Unreadable(status) => r := Failed(status);
      case Decoded(facts) =>
        if !Sized(facts) {
          return Failed(0);
        }
        var m := Build(hash, facts);
        r := Ok(m);
    }

    method Acquire(depot: Depot, hash: MeshHash) returns (r: Result)
      requires Deterministic(world) && depot in depots
      modifies this`entries, this`dirty
      ensures View() == DoAcquire(old(View()), depot, hash, world)
      ensures r == Acquired(old(View()), depot, hash, world)
      ensures old(Valid()) && Sound(world) ==>
        PublicResult(r) == PublicResult(world.build(depots[depot], hash))
      ensures old(Valid()) && Countable(View()) ==> Valid()
    {
      AcquireStaysReachable(View(), depot, hash, world);
      var usable := enabled && owner == Some(depot);
      if usable && hash in entries {
        return Ok(entries[hash]);
      }
      r := BuildFrom(depot, hash);
      if usable && r.Ok? {
        entries := entries[hash := r.mesh];
        dirty := true;
      }
    }

    /** cache_invalidate. */
    method Invalidate(depot: Depot)
      requires depot in depots
      modifies this
      ensures View() == DoInvalidate(old(View()), depot, world)
    {
      if !enabled || owner != Some(depot) {
        return;
      }
      var before := fingerprint;
      fingerprint := world.fingerprint(depots[depot]);
      if fingerprint == before {
        return;
      }
      entries := map[];
      dirty := false;
      source := depots[depot];
    }

    method Mount(depot: Depot, archives: seq<Archive>)
      requires depot in depots
      modifies this
      ensures View() == DoMount(old(View()), depot, archives, world)
      ensures old(Valid()) && archives != [] && Countable(View()) ==> Valid()
    {
      if archives != [] {
        StaysReachable(View(), MeshCache.Mount(depot, archives), world);
      }
      depots := depots[depot := depots[depot] + archives];
      Invalidate(depot);
    }

    /** load_from_disk, into entries the open has just cleared. */
    method LoadFromDisk(buf: Bytes)
      requires entries == map[]
      modifies this`entries
      ensures var load := Parse(buf, fingerprint);
        entries == if load.Loaded? then EntriesOf(load.meshes) else map[]
    {
      if |buf| < FILE_HEADER || |buf| >= TELL_LIMIT {
        return;
      }
      if WordAt(buf, 0) != MAGIC || WordAt(buf, 4) != VERSION || HashAt(buf, 8) != fingerprint {
        return;
      }
      var found, loaded := LoadEntries(buf, FILE_HEADER, WordAt(buf, 16));
      entries := found;
    }

    method OpenCache(depot: Depot, name: Name, readOk: bool)
      requires depot in depots
      modifies this
      ensures View() == DoOpenCache(old(View()), depot, name, readOk, world)
      ensures old(Valid()) && Countable(View()) ==> Valid()
    {
      OpenStaysReachable(View(), depot, name, readOk, world);
      file := name;
      fingerprint := world.fingerprint(depots[depot]);
      entries := map[];
      enabled, owner, dirty := true, Some(depot), false;
      source := depots[depot];
      if name in disk && readOk {
        LoadFromDisk(disk[name]);
      }
    }

    method FlushCache(order: seq<MeshHash>, writeOk: bool) returns (ok: bool)
      requires Enumerates(order, entries)
      modifies this`disk, this`dirty, this`images
      ensures View() == DoFlush(old(View()), order, writeOk)
      ensures ok == (!old(enabled) || !old(dirty) || writeOk)
      ensures old(Valid()) && Countable(View()) ==> Valid()
    {
      FlushStaysReachable(View(), order, writeOk, world);
      if !enabled || !dirty {
        return true;
      }
      var out := BuildFile(fingerprint, order, entries);
      if !writeOk {
        return false;
      }
      disk := disk[file := out];
      dirty := false;
      images := images[file := Image(source, Meshes(order, entries))];
      ok := true;
    }

    method CloseCache(order: seq<MeshHash>, writeOk: bool)
      requires Enumerates(order, entries)
      modifies this
      ensures View() == DoCloseCache(old(View()), order, writeOk)
      ensures old(Valid()) && Countable(View()) ==> Valid()
    {
      StaysReachable(View(), MeshCache.CloseCache(order, writeOk), world);
      var _ := FlushCache(order, writeOk);
      entries := map[];
      enabled := false;
      owner := None;
    }
  }
}
