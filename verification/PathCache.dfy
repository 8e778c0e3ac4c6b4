/** The path cache of src/paths.cpp over whole sequences of process runs: its state, its steps, and
    the file system between runs. The dictionary is the strictly sorted sequence that merging
    leaves; the hash is a parameter. */
module PathCache {
  import opened Bytes
  import opened PathFile

  type Key = nat
  type Name = string
  type Hash = Path -> Key

  datatype Rec = Rec(key: Key, path: Path)

  type Dict = seq<Rec>

  function Keys(dict: Dict): set<Key> {
    if dict == [] then {} else {dict[0].key} + Keys(dict[1..])
  }

  function PathKeys(paths: seq<Path>, hash: Hash): set<Key> {
    if paths == [] then {} else PathKeys(paths[..|paths| - 1], hash) + {hash(paths[|paths| - 1])}
  }

  function PathsOf(dict: Dict): seq<Path> {
    seq(|dict|, i requires 0 <= i < |dict| => dict[i].path)
  }

  /** First writer wins; the sorted order is kept. */
  function Insert(dict: Dict, rec: Rec): Dict {
    if dict == [] || rec.key < dict[0].key then [rec] + dict
    else if rec.key == dict[0].key then dict
    else [dict[0]] + Insert(dict[1..], rec)
  }

  predicate Usable(path: Path) {
    path != [] && |path| <= MAX_PATH_LENGTH
  }

  function Learn(dict: Dict, path: Path, hash: Hash): Dict {
    if Usable(path) then Insert(dict, Rec(hash(path), path)) else dict
  }

  function LearnAll(dict: Dict, paths: seq<Path>, hash: Hash): Dict {
    if paths == [] then dict
    else Learn(LearnAll(dict, paths[..|paths| - 1], hash), paths[|paths| - 1], hash)
  }

  function Refused(paths: seq<Path>): nat {
    if paths == [] then 0
    else Refused(paths[..|paths| - 1]) + (if Usable(paths[|paths| - 1]) then 0 else 1)
  }

  predicate IsLeast(m: Digest, s: set<Digest>) {
    m in s && forall d :: d in s ==> m <= d
  }

  lemma {:induction false} HasLeast(s: set<Digest>)
    requires s != {}
    ensures exists m :: IsLeast(m, s)
  {
    var x :| x in s;
    var rest := s - {x};
    if rest == {} {
      assert s == {x};
      assert IsLeast(x, s);
    } else {
      HasLeast(rest);
      var m :| IsLeast(m, rest);
      assert s == rest + {x};
      assert IsLeast(if x < m then x else m, s);
    }
  }

  function SetOf(digests: seq<Digest>): set<Digest> {
    set d | d in digests
  }

  /** The digests in the order std::sort gives them. */
  function SortedDigests(s: set<Digest>): seq<Digest> {
    if s == {} then [] else
      HasLeast(s);
      var m :| IsLeast(m, s);
      [m] + SortedDigests(s - {m})
  }

  /** The fields of the cache and the dictionary, the files, and history: for each digest in memory
      and in each file the keys known when it was last marked, the image last flushed to each file,
      and whether the file in use has been cut since it was last written or read. */
  datatype State = State(
    dict: Dict,
    enabled: bool,
    file: Name,
    harvested: set<Digest>,
    writtenPaths: nat,
    writtenArchives: nat,
    stale: bool,
    disk: map<Name, Bytes>,
    known: map<Digest, set<Key>>,
    images: map<Name, Image>,
    covers: map<Name, map<Digest, set<Key>>>,
    cut: bool)

  const Init: State := State([], false, "", {}, 0, 0, false, map[], map[], map[], map[], false)

  /** `writeOk` and `readOk` are the outcomes of the file operations. */
  datatype Action =
    | Add(path: Path)
    | Mark(digest: Digest)
    | Flush(writeOk: bool)
    | Open(name: Name, writeOk: bool, readOk: bool)
    | Close(writeOk: bool)
    | Crash
    | Truncate(name: Name, length: nat)

  predicate UpToDate(s: State) {
    !s.stale && |s.dict| == s.writtenPaths && |s.harvested| == s.writtenArchives
  }

  function ImageOf(s: State): Image {
    Image(SortedDigests(s.harvested), PathsOf(s.dict))
  }

  function DoFlush(s: State, writeOk: bool): State {
    if !s.enabled || UpToDate(s) || !writeOk then s
    else
      s.(disk := s.disk[s.file := Encode(ImageOf(s))],
         writtenPaths := |s.dict| % U32, writtenArchives := |s.harvested| % U32, stale := false,
         images := s.images[s.file := ImageOf(s)], covers := s.covers[s.file := s.known], cut := false)
  }

  function LoadOf(s: State, name: Name, readOk: bool): Load {
    if name !in s.disk then NoFile else if !readOk then Unreadable else Parse(s.disk[name])
  }

  /** path_cache_open's verdict that memory and file agree, so that the counts it keeps may stand. */
  predicate Faithful(load: Load, before: Dict, after: Dict)
    requires load.Loaded?
  {
    && |load.records| == load.declared && Refused(load.records) == 0
    && (before == [] ==> |after| - |before| == |load.records|)
  }

  function Restore(s: State, load: Load, hash: Hash): State {
    if !load.Loaded? then s
    else
      var after := LearnAll(s.dict, load.records, hash);
      if Faithful(load, s.dict, after) then
        s.(dict := after, harvested := SetOf(load.digests),
           writtenPaths := |load.records|, writtenArchives := |load.digests|, stale := false,
           known := if s.file in s.covers then s.covers[s.file] else map[])
      else
        s.(dict := after, writtenPaths := |load.records|, writtenArchives := 0, stale := true)
  }

  function Fresh(s: State, name: Name): State {
    s.(file := name, harvested := {}, enabled := true, writtenPaths := 0, writtenArchives := 0,
       stale := false, known := map[], cut := false)
  }

  function DoOpen(s: State, name: Name, writeOk: bool, readOk: bool, hash: Hash): State {
    var flushed := Fresh(DoFlush(s, writeOk), name);
    Restore(flushed, LoadOf(flushed, name, readOk), hash)
  }

  function DoClose(s: State, writeOk: bool): State {
    DoFlush(s, writeOk).(harvested := {}, enabled := false, writtenPaths := 0, writtenArchives := 0,
                        stale := false, known := map[])
  }

  /** The process dies and another starts; only the files remain. */
  function DoCrash(s: State): State {
    s.(dict := [], enabled := false, file := "", harvested := {}, writtenPaths := 0,
       writtenArchives := 0, stale := false, known := map[], cut := false)
  }

  function DoMark(s: State, digest: Digest): State {
    if !s.enabled then s
    else s.(harvested := s.harvested + {digest}, known := s.known[digest := Keys(s.dict)])
  }

  function DoTruncate(s: State, name: Name, length: nat): State {
    if name in s.disk && length <= |s.disk[name]| then
      s.(disk := s.disk[name := s.disk[name][..length]], cut := s.cut || (s.enabled && name == s.file))
    else s
  }

  function Apply(s: State, a: Action, hash: Hash): State {
    match a
    case Add(path) => s.(dict := Learn(s.dict, path, hash))
    case Mark(digest) => DoMark(s, digest)
    case Flush(writeOk) => DoFlush(s, writeOk)
    case Open(name, writeOk, readOk) => DoOpen(s, name, writeOk, readOk, hash)
    case Close(writeOk) => DoClose(s, writeOk)
    case Crash => DoCrash(s)
    case Truncate(name, length) => DoTruncate(s, name, length)
  }

  /** The counts in the file are 32 bits wide. */
  predicate Countable(s: State) {
    |s.dict| < U32 && |s.harvested| < U32
  }

  function Exec(s: State, acts: seq<Action>, hash: Hash): State
    decreases |acts|
  {
    if acts == [] then s else Exec(Apply(s, acts[0], hash), acts[1..], hash)
  }

  predicate ValidRun(s: State, acts: seq<Action>, hash: Hash)
    decreases |acts|
  {
    acts == [] || (Countable(Apply(s, acts[0], hash)) && ValidRun(Apply(s, acts[0], hash), acts[1..], hash))
  }

  ghost predicate Reachable(s: State, hash: Hash) {
    exists acts :: ValidRun(Init, acts, hash) && Exec(Init, acts, hash) == s
  }

  lemma {:induction false} RunSnoc(s: State, acts: seq<Action>, a: Action, hash: Hash)
    requires ValidRun(s, acts, hash) && Countable(Apply(Exec(s, acts, hash), a, hash))
    ensures ValidRun(s, acts + [a], hash) && Exec(s, acts + [a], hash) == Apply(Exec(s, acts, hash), a, hash)
    decreases |acts|
  {
    if acts == [] {
      assert acts + [a] == [a] && [a][1..] == [];
    } else {
      assert (acts + [a])[1..] == acts[1..] + [a];
      RunSnoc(Apply(s, acts[0], hash), acts[1..], a, hash);
    }
  }

  lemma InitReachable(hash: Hash)
    ensures Reachable(Init, hash)
  {
    assert ValidRun(Init, [], hash) && Exec(Init, [], hash) == Init;
  }

  lemma StaysReachable(s: State, a: Action, hash: Hash)
    ensures Reachable(s, hash) && Countable(Apply(s, a, hash)) ==> Reachable(Apply(s, a, hash), hash)
  {
    if Reachable(s, hash) && Countable(Apply(s, a, hash)) {
      var acts :| ValidRun(Init, acts, hash) && Exec(Init, acts, hash) == s;
      RunSnoc(Init, acts, a, hash);
    }
  }

  // ---------------------------------------------------------------- the dictionary

  predicate DictOk(dict: Dict, hash: Hash) {
    && (forall i, j :: 0 <= i < j < |dict| ==> dict[i].key < dict[j].key)
    && forall i :: 0 <= i < |dict| ==> dict[i].key == hash(dict[i].path) && Usable(dict[i].path)
  }

  lemma {:induction false} InKeys(dict: Dict, k: Key)
    ensures k in Keys(dict) <==> exists i :: 0 <= i < |dict| && dict[i].key == k
  {
    if dict != [] {
      InKeys(dict[1..], k);
      if i :| 0 <= i < |dict[1..]| && dict[1..][i].key == k {
        assert dict[i + 1].key == k;
      }
      if i :| 0 < i < |dict| && dict[i].key == k {
        assert dict[1..][i - 1].key == k;
      }
    }
  }

  /** A strictly sorted dictionary has as many keys as entries. */
  lemma {:induction false} KeysCount(dict: Dict, hash: Hash)
    requires DictOk(dict, hash)
    ensures |Keys(dict)| == |dict|
  {
    if dict != [] {
      KeysCount(dict[1..], hash);
      InKeys(dict[1..], dict[0].key);
    }
  }

  lemma {:induction false} InsertAddsKey(dict: Dict, rec: Rec)
    ensures Keys(Insert(dict, rec)) == Keys(dict) + {rec.key}
  {
    if dict == [] || rec.key < dict[0].key {
      assert ([rec] + dict)[1..] == dict;
    } else if rec.key != dict[0].key {
      var rest := Insert(dict[1..], rec);
      InsertAddsKey(dict[1..], rec);
      assert ([dict[0]] + rest)[1..] == rest;
    }
  }

  lemma {:induction false} InsertKeepsOrder(dict: Dict, rec: Rec, hash: Hash)
    requires DictOk(dict, hash) && rec.key == hash(rec.path) && Usable(rec.path)
    ensures DictOk(Insert(dict, rec), hash)
    ensures dict != [] && dict[0].key < rec.key ==> Insert(dict, rec)[0] == dict[0]
    ensures dict == [] || dict[0].key >= rec.key ==> Insert(dict, rec)[0].key == rec.key
  {
    if dict != [] && dict[0].key < rec.key {
      InsertKeepsOrder(dict[1..], rec, hash);
    }
  }

  lemma InsertKeeps(dict: Dict, rec: Rec, hash: Hash)
    requires DictOk(dict, hash) && rec.key == hash(rec.path) && Usable(rec.path)
    ensures DictOk(Insert(dict, rec), hash) && Keys(Insert(dict, rec)) == Keys(dict) + {rec.key}
  {
    InsertAddsKey(dict, rec);
    InsertKeepsOrder(dict, rec, hash);
  }

  lemma {:induction false} LearnAllKeeps(dict: Dict, paths: seq<Path>, hash: Hash)
    requires DictOk(dict, hash)
    ensures DictOk(LearnAll(dict, paths, hash), hash)
    ensures Keys(dict) <= Keys(LearnAll(dict, paths, hash)) <= Keys(dict) + PathKeys(paths, hash)
    ensures Refused(paths) == 0 ==> Keys(LearnAll(dict, paths, hash)) == Keys(dict) + PathKeys(paths, hash)
  {
    if paths != [] {
      var front, last := paths[..|paths| - 1], paths[|paths| - 1];
      LearnAllKeeps(dict, front, hash);
      if Usable(last) {
        InsertKeeps(LearnAll(dict, front, hash), Rec(hash(last), last), hash);
      }
    }
  }

  /** The hash-to-path map a dictionary represents. */
  function MapOf(dict: Dict): map<Key, Path> {
    if dict == [] then map[] else MapOf(dict[1..])[dict[0].key := dict[0].path]
  }

  lemma {:induction false} MapKeys(dict: Dict)
    ensures MapOf(dict).Keys == Keys(dict)
  {
    if dict != [] {
      MapKeys(dict[1..]);
    }
  }

  /** On the map, inserting is the update the dictionary's own Add makes: a new key is added, a key
      already there keeps its path. */
  lemma {:induction false} InsertIsFirstWriter(dict: Dict, rec: Rec, hash: Hash)
    requires DictOk(dict, hash)
    ensures MapOf(Insert(dict, rec))
         == if rec.key in MapOf(dict) then MapOf(dict) else MapOf(dict)[rec.key := rec.path]
  {
    MapKeys(dict);
    InKeys(dict, rec.key);
    if dict == [] || rec.key < dict[0].key {
      assert ([rec] + dict)[1..] == dict;
    } else if rec.key != dict[0].key {
      InsertIsFirstWriter(dict[1..], rec, hash);
      assert ([dict[0]] + Insert(dict[1..], rec))[1..] == Insert(dict[1..], rec);
    }
  }
}
