/** Crash safety of the path cache: coverage never outruns the paths, a no-op flush is sound, and a
    flushed cache survives a restart. */
module PathCacheSafety {
  import opened Bytes
  import opened PathFile
  import opened PathCache

  // ---------------------------------------------------------------- small facts

  lemma {:induction false} SortedDigestsAll(s: set<Digest>)
    ensures |SortedDigests(s)| == |s| && SetOf(SortedDigests(s)) == s
  {
    if s != {} {
      var m := SortedDigests(s)[0];
      SortedDigestsAll(s - {m});
      assert SortedDigests(s) == [m] + SortedDigests(s - {m});
      assert SetOf(SortedDigests(s)) == {m} + SetOf(SortedDigests(s - {m}));
    }
  }

  lemma {:induction false} PathKeysOf(dict: Dict, hash: Hash)
    requires DictOk(dict, hash)
    ensures PathKeys(PathsOf(dict), hash) == Keys(dict) && Refused(PathsOf(dict)) == 0
  {
    forall n | 0 <= n <= |dict|
      ensures PathKeys(PathsOf(dict)[..n], hash) == KeysUpTo(dict, n) && Refused(PathsOf(dict)[..n]) == 0
    {
      PathKeysUpTo(dict, n, hash);
    }
    assert PathsOf(dict)[..|dict|] == PathsOf(dict);
    forall k
      ensures k in Keys(dict) <==> k in KeysUpTo(dict, |dict|)
    {
      InKeys(dict, k);
    }
  }

  function KeysUpTo(dict: Dict, n: nat): set<Key>
    requires n <= |dict|
  {
    set i | 0 <= i < n :: dict[i].key
  }

  lemma {:induction false} PathKeysUpTo(dict: Dict, n: nat, hash: Hash)
    requires DictOk(dict, hash) && n <= |dict|
    ensures PathKeys(PathsOf(dict)[..n], hash) == KeysUpTo(dict, n) && Refused(PathsOf(dict)[..n]) == 0
    decreases n
  {
    if n > 0 {
      PathKeysUpTo(dict, n - 1, hash);
      assert PathsOf(dict)[..n][..n - 1] == PathsOf(dict)[..n - 1];
      assert PathsOf(dict)[..n][n - 1] == dict[n - 1].path;
      assert KeysUpTo(dict, n) == KeysUpTo(dict, n - 1) + {dict[n - 1].key};
    }
  }

  lemma {:induction false} SameSize<T>(a: set<T>, b: set<T>)
    requires a <= b && |a| == |b|
    ensures a == b
  {
    if x :| x in b && x !in a {
      SizeAtMost(a, b - {x});
    }
  }

  lemma {:induction false} SizeAtMost<T>(a: set<T>, b: set<T>)
    requires a <= b
    ensures |a| <= |b|
  {
    if a != {} {
      var x :| x in a;
      SizeAtMost(a - {x}, b - {x});
    }
  }

  // ---------------------------------------------------------------- invariants

  /** An image as a flush makes it: keys and digests all different, and every digest covered. */
  ghost predicate ImageOk(image: Image, covers: map<Digest, set<Key>>, hash: Hash) {
    && Fits(image)
    && Refused(image.paths) == 0
    && |PathKeys(image.paths, hash)| == |image.paths|
    && |SetOf(image.digests)| == |image.digests|
    && forall d :: d in image.digests ==> d in covers && covers[d] <= PathKeys(image.paths, hash)
  }

  /** Every file is a prefix of an image once flushed to it. */
  ghost predicate FilesOk(s: State, hash: Hash) {
    forall name :: name in s.disk ==> FileOk(s, name, hash)
  }

  ghost predicate FileOk(s: State, name: Name, hash: Hash)
    requires name in s.disk
  {
    && name in s.images && name in s.covers
    && s.disk[name] <= Encode(s.images[name])
    && ImageOk(s.images[name], s.covers[name], hash)
  }

  /** Coverage in memory never outruns the dictionary. */
  predicate CoverageOk(s: State) {
    forall d :: d in s.harvested ==> d in s.known && s.known[d] <= Keys(s.dict)
  }

  /** What the bookkeeping says of the file: nothing, or exactly its image. */
  ghost predicate WrittenOk(s: State, hash: Hash) {
    s.enabled && !s.stale ==>
      || (s.writtenPaths == 0 && s.writtenArchives == 0)
      || (&& s.file in s.disk && s.file in s.images
          && (s.cut || s.disk[s.file] == Encode(s.images[s.file]))
          && s.writtenPaths == |s.images[s.file].paths|
          && s.writtenArchives == |s.images[s.file].digests|
          && PathKeys(s.images[s.file].paths, hash) <= Keys(s.dict)
          && SetOf(s.images[s.file].digests) <= s.harvested)
  }

  ghost predicate Inv(s: State, hash: Hash) {
    && Countable(s) && DictOk(s.dict, hash) && FilesOk(s, hash) && CoverageOk(s) && WrittenOk(s, hash)
    && (!s.enabled ==> s.harvested == {})
  }

  // ---------------------------------------------------------------- steps

  lemma ImageIsOk(s: State, hash: Hash)
    requires Countable(s) && DictOk(s.dict, hash) && CoverageOk(s)
    ensures ImageOk(ImageOf(s), s.known, hash)
    ensures PathKeys(ImageOf(s).paths, hash) == Keys(s.dict) && SetOf(ImageOf(s).digests) == s.harvested
    ensures |ImageOf(s).paths| == |s.dict| && |ImageOf(s).digests| == |s.harvested|
  {
    PathKeysOf(s.dict, hash);
    KeysCount(s.dict, hash);
    SortedDigestsAll(s.harvested);
    assert forall d :: d in ImageOf(s).digests ==> d in SetOf(ImageOf(s).digests);
  }

  lemma FlushedCounts(s: State)
    requires s.enabled && !UpToDate(s) && Countable(s)
    ensures var t := DoFlush(s, true);
      t.writtenPaths == |s.dict| && t.writtenArchives == |s.harvested|
  {
  }

  lemma FlushKeepsWritten(s: State, hash: Hash)
    requires Countable(s) && WrittenOk(s, hash)
    requires PathKeys(ImageOf(s).paths, hash) == Keys(s.dict) && SetOf(ImageOf(s).digests) == s.harvested
    requires |ImageOf(s).paths| == |s.dict| && |ImageOf(s).digests| == |s.harvested|
    ensures WrittenOk(DoFlush(s, true), hash)
  {
    if s.enabled && !UpToDate(s) {
      FlushedCounts(s);
    }
  }

  lemma FlushKeepsFiles(s: State, hash: Hash)
    requires FilesOk(s, hash) && ImageOk(ImageOf(s), s.known, hash)
    ensures FilesOk(DoFlush(s, true), hash)
  {
    var t := DoFlush(s, true);
    forall name | name in t.disk
      ensures FileOk(t, name, hash)
    {
      assert name in s.disk ==> FileOk(s, name, hash);
    }
  }

  /** What a flush leaves alone. */
  lemma FlushFrame(s: State, writeOk: bool)
    ensures var t := DoFlush(s, writeOk);
      && t.dict == s.dict && t.enabled == s.enabled && t.file == s.file
      && t.harvested == s.harvested && t.known == s.known
  {
  }

  lemma FlushKeepsInv(s: State, writeOk: bool, hash: Hash)
    requires Inv(s, hash)
    ensures Inv(DoFlush(s, writeOk), hash)
    ensures DoFlush(s, writeOk).dict == s.dict
  {
    FlushFrame(s, writeOk);
    if writeOk {
      ImageIsOk(s, hash);
      FlushKeepsFiles(s, hash);
      FlushKeepsWritten(s, hash);
    }
  }

  /** What loading a file of ours can yield. */
  lemma LoadIsPrefix(s: State, name: Name, readOk: bool, hash: Hash)
    requires FilesOk(s, hash)
    ensures var load := LoadOf(s, name, readOk);
      load.Loaded? ==>
        && name in s.disk && FileOk(s, name, hash)
        && load.digests == s.images[name].digests && load.records <= s.images[name].paths
        && (|load.records| == load.declared ==>
              load.records == s.images[name].paths && s.disk[name] == Encode(s.images[name]))
  {
    if name in s.disk {
      assert FileOk(s, name, hash);
      PrefixLoads(s.images[name], |s.disk[name]|);
      assert s.disk[name] == Encode(s.images[name])[..|s.disk[name]|];
    }
  }

  lemma RestoreKeepsCoverage(s: State, load: Load, hash: Hash)
    requires DictOk(s.dict, hash) && s.harvested == {} && load.Loaded?
    requires s.file in s.images && s.file in s.covers && ImageOk(s.images[s.file], s.covers[s.file], hash)
    requires load.digests == s.images[s.file].digests
    requires |load.records| == load.declared ==> load.records == s.images[s.file].paths
    ensures CoverageOk(Restore(s, load, hash))
  {
    LearnAllKeeps(s.dict, load.records, hash);
  }

  lemma RestoreKeepsWritten(s: State, load: Load, hash: Hash)
    requires DictOk(s.dict, hash) && load.Loaded?
    requires s.file in s.disk && s.file in s.images && load.digests == s.images[s.file].digests
    requires |load.records| == load.declared ==>
      load.records == s.images[s.file].paths && s.disk[s.file] == Encode(s.images[s.file])
    ensures WrittenOk(Restore(s, load, hash), hash)
  {
    LearnAllKeeps(s.dict, load.records, hash);
  }

  lemma RestoreKeepsInv(s: State, load: Load, hash: Hash)
    requires Inv(s, hash) && s.enabled && s.harvested == {} && s.writtenPaths == 0 && s.writtenArchives == 0
    requires load.Loaded? ==>
      && s.file in s.disk && load.digests == s.images[s.file].digests
      && (|load.records| == load.declared ==>
            load.records == s.images[s.file].paths && s.disk[s.file] == Encode(s.images[s.file]))
    requires Countable(Restore(s, load, hash))
    ensures Inv(Restore(s, load, hash), hash)
  {
    if load.Loaded? {
      LearnAllKeeps(s.dict, load.records, hash);
      assert FileOk(s, s.file, hash);
      RestoreKeepsCoverage(s, load, hash);
      RestoreKeepsWritten(s, load, hash);
    }
  }

  lemma OpenKeepsInv(s: State, name: Name, writeOk: bool, readOk: bool, hash: Hash)
    requires Inv(s, hash) && Countable(DoOpen(s, name, writeOk, readOk, hash))
    ensures Inv(DoOpen(s, name, writeOk, readOk, hash), hash)
  {
    FlushKeepsInv(s, writeOk, hash);
    var flushed := DoFlush(s, writeOk);
    var reset := Fresh(flushed, name);
    LoadIsPrefix(reset, name, readOk, hash);
    RestoreKeepsInv(reset, LoadOf(reset, name, readOk), hash);
  }

  lemma LearnKeepsInv(s: State, path: Path, hash: Hash)
    requires Inv(s, hash) && Countable(s.(dict := Learn(s.dict, path, hash)))
    ensures Inv(s.(dict := Learn(s.dict, path, hash)), hash)
  {
    if Usable(path) {
      InsertKeeps(s.dict, Rec(hash(path), path), hash);
    }
  }

  lemma CutFilesOk(s: State, t: State, name: Name, hash: Hash)
    requires FilesOk(s, hash) && name in s.disk && name in t.disk && t.disk[name] <= s.disk[name]
    requires t.disk == s.disk[name := t.disk[name]] && t.images == s.images && t.covers == s.covers
    ensures FilesOk(t, hash)
  {
    forall other | other in t.disk
      ensures FileOk(t, other, hash)
    {
      assert FileOk(s, other, hash);
    }
  }

  lemma CutKeepsInv(s: State, name: Name, length: nat, hash: Hash)
    requires Inv(s, hash) && name in s.disk && length <= |s.disk[name]|
    ensures Inv(DoTruncate(s, name, length), hash)
  {
    var t := DoTruncate(s, name, length);
    CutFilesOk(s, t, name, hash);
    assert t.disk == s.disk[name := t.disk[name]] && t.images == s.images;
    assert WrittenOk(t, hash);
  }

  lemma TruncateKeepsInv(s: State, name: Name, length: nat, hash: Hash)
    requires Inv(s, hash)
    ensures Inv(DoTruncate(s, name, length), hash)
  {
    if name in s.disk && length <= |s.disk[name]| {
      CutKeepsInv(s, name, length, hash);
    }
  }

  lemma MarkKeepsInv(s: State, d: Digest, hash: Hash)
    requires Inv(s, hash) && Countable(DoMark(s, d))
    ensures Inv(DoMark(s, d), hash)
  {
  }

  lemma CloseKeepsInv(s: State, writeOk: bool, hash: Hash)
    requires Inv(s, hash)
    ensures Inv(DoClose(s, writeOk), hash)
  {
    FlushKeepsInv(s, writeOk, hash);
  }

  lemma StepKeepsInv(s: State, a: Action, hash: Hash)
    requires Inv(s, hash) && Countable(Apply(s, a, hash))
    ensures Inv(Apply(s, a, hash), hash)
  {
    match a
    case Add(path) => LearnKeepsInv(s, path, hash);
    case Mark(digest) => MarkKeepsInv(s, digest, hash);
    case Flush(writeOk) => FlushKeepsInv(s, writeOk, hash);
    case Open(name, writeOk, readOk) => OpenKeepsInv(s, name, writeOk, readOk, hash);
    case Close(writeOk) => CloseKeepsInv(s, writeOk, hash);
    case Crash =>
    case Truncate(name, length) => TruncateKeepsInv(s, name, length, hash);
  }

  lemma {:induction false} RunKeepsInv(s: State, acts: seq<Action>, hash: Hash)
    requires Inv(s, hash) && ValidRun(s, acts, hash)
    ensures Inv(Exec(s, acts, hash), hash)
    decreases |acts|
  {
    if acts != [] {
      StepKeepsInv(s, acts[0], hash);
      RunKeepsInv(Apply(s, acts[0], hash), acts[1..], hash);
    }
  }

  lemma ReachableInv(s: State, hash: Hash)
    requires Reachable(s, hash)
    ensures Inv(s, hash)
  {
    var acts :| ValidRun(Init, acts, hash) && Exec(Init, acts, hash) == s;
    RunKeepsInv(Init, acts, hash);
  }

  // ---------------------------------------------------------------- theorems

  /** Over any sequence of runs with adds, marks, flushes, failed writes and reads, crashes and
      tail truncation: a digest counted as harvested has every key known when it was marked. */
  lemma CoverageNeverOutrunsPaths(s: State, d: Digest, hash: Hash)
    requires Reachable(s, hash) && d in s.harvested
    ensures d in s.known && s.known[d] <= Keys(s.dict)
  {
    ReachableInv(s, hash);
  }

  /** Opening a file that was cut by even one byte restores a prefix of its paths and no coverage. */
  lemma CutFileRestoresNoCoverage(s: State, name: Name, hash: Hash)
    requires Reachable(s, hash) && !s.enabled && name in s.disk && name in s.images
    requires |s.disk[name]| < |Encode(s.images[name])|
    ensures var t := DoOpen(s, name, true, true, hash);
      && t.harvested == {}
      && exists n: nat :: n <= |s.images[name].paths| && t.dict == LearnAll(s.dict, s.images[name].paths[..n], hash)
  {
    ReachableInv(s, hash);
    assert FileOk(s, name, hash);
    PrefixLoads(s.images[name], |s.disk[name]|);
    assert s.disk[name] == Encode(s.images[name])[..|s.disk[name]|];
    var load := Parse(s.disk[name]);
    if load.Loaded? {
      assert load.records == s.images[name].paths[..|load.records|];
    } else {
      assert s.images[name].paths[..0] == [];
    }
  }

  /** The file in use is as long as the image last flushed to it. */
  predicate Whole(s: State) {
    s.file in s.disk && s.file in s.images && |s.disk[s.file]| == |Encode(s.images[s.file])|
  }

  /** The early return of a flush is taken only when there is nothing to hold, or when the image last
      flushed to the file has exactly the keys of the dictionary and the harvested digests; the file
      is that image exactly when it has its length, as it does unless it was cut meanwhile. */
  lemma NoOpFlushIsSound(s: State, hash: Hash)
    requires Reachable(s, hash) && s.enabled && UpToDate(s)
    ensures (s.dict == [] && s.harvested == {})
         || (&& s.file in s.disk && s.file in s.images
             && PathKeys(s.images[s.file].paths, hash) == Keys(s.dict)
             && SetOf(s.images[s.file].digests) == s.harvested
             && (s.disk[s.file] == Encode(s.images[s.file]) <==> |s.disk[s.file]| == |Encode(s.images[s.file])|)
             && (!s.cut ==> Whole(s)))
  {
    ReachableInv(s, hash);
    KeysCount(s.dict, hash);
    if !(s.writtenPaths == 0 && s.writtenArchives == 0) {
      assert FileOk(s, s.file, hash);
      SameSize(PathKeys(s.images[s.file].paths, hash), Keys(s.dict));
      SameSize(SetOf(s.images[s.file].digests), s.harvested);
    }
  }

  /** What a crash and a reopen of a file leave. */
  function Restarted(t: State, file: Name, hash: Hash): State {
    DoOpen(DoCrash(t), file, true, true, hash)
  }

  /** Every key and all the coverage are back, and there is nothing left to write. */
  predicate Survives(s: State, u: State) {
    Keys(u.dict) == Keys(s.dict) && u.harvested == s.harvested && UpToDate(u)
  }

  /** A flush with nothing to write leaves the state, any other makes a whole file of everything. */
  lemma FlushedImage(s: State, hash: Hash)
    requires Reachable(s, hash) && s.enabled && (s.dict != [] || s.harvested != {})
    ensures var t := DoFlush(s, true);
      && Inv(t, hash) && t.file == s.file && t.file in t.disk && t.file in t.images
      && PathKeys(t.images[t.file].paths, hash) == Keys(s.dict)
      && SetOf(t.images[t.file].digests) == s.harvested
      && (!s.cut || !UpToDate(s) ==> Whole(t))
  {
    ReachableInv(s, hash);
    FlushKeepsInv(s, true, hash);
    if UpToDate(s) {
      NoOpFlushIsSound(s, hash);
    } else {
      ImageIsOk(s, hash);
    }
  }

  /** After a flush that reports success, a crash and a reopen bring back every key and all the
      coverage if and only if the file is whole and ftell can measure it; it is whole unless the
      flush had nothing to write and the file was cut behind the cache's back. */
  lemma FlushedCacheSurvives(s: State, hash: Hash)
    requires Reachable(s, hash) && s.enabled
    ensures var t := DoFlush(s, true);
      s.dict != [] || s.harvested != {} ==>
        && (Survives(s, Restarted(t, t.file, hash)) <==> Whole(t) && |t.disk[t.file]| < TELL_LIMIT)
        && (!s.cut || !UpToDate(s) ==> Whole(t))
  {
    var t := DoFlush(s, true);
    if s.dict != [] || s.harvested != {} {
      FlushedImage(s, hash);
      if Whole(t) && |t.disk[t.file]| < TELL_LIMIT {
        assert FileOk(t, t.file, hash);
        WholeFileRestores(t, t.file, hash);
      } else {
        assert FileOk(t, t.file, hash);
        BrokenFileLoses(s, t, hash);
      }
    }
  }

  /** A file of ours that is cut or too long to measure loads nothing or falls short of its count. */
  lemma BrokenFileLoads(t: State, name: Name, hash: Hash)
    requires FilesOk(t, hash) && name in t.disk && name in t.images
    requires |t.disk[name]| < |Encode(t.images[name])| || |t.disk[name]| >= TELL_LIMIT
    ensures Parse(t.disk[name]).Loaded? ==> |Parse(t.disk[name]).records| != Parse(t.disk[name]).declared
  {
    assert FileOk(t, name, hash);
    PrefixLoads(t.images[name], |t.disk[name]|);
    assert t.disk[name] == Encode(t.images[name])[..|t.disk[name]|];
  }

  /** A load that falls short leaves a restarted cache stale, and one that fails leaves it empty. */
  lemma ShortLoadLoses(s: State, t: State, load: Load, hash: Hash)
    requires load.Loaded? ==> |load.records| != load.declared
    requires s.dict != [] || s.harvested != {}
    ensures !Survives(s, Restore(Fresh(DoCrash(t), t.file), load, hash))
  {
    if s.dict != [] {
      assert s.dict[0].key in Keys(s.dict);
    }
  }

  lemma BrokenFileLoses(s: State, t: State, hash: Hash)
    requires FilesOk(t, hash) && t.file in t.disk && t.file in t.images && (s.dict != [] || s.harvested != {})
    requires t.disk[t.file] <= Encode(t.images[t.file]) && !(Whole(t) && |t.disk[t.file]| < TELL_LIMIT)
    ensures !Survives(s, Restarted(t, t.file, hash))
  {
    BrokenFileLoads(t, t.file, hash);
    ShortLoadLoses(s, t, Parse(t.disk[t.file]), hash);
  }

  lemma WholeFileRestores(t: State, name: Name, hash: Hash)
    requires Inv(t, hash) && name in t.disk && name in t.images && t.disk[name] == Encode(t.images[name])
    requires |t.disk[name]| < TELL_LIMIT
    ensures var u := Restarted(t, name, hash);
      && Keys(u.dict) == PathKeys(t.images[name].paths, hash)
      && u.harvested == SetOf(t.images[name].digests) && UpToDate(u)
  {
    assert FileOk(t, name, hash);
    var image := t.images[name];
    PrefixLoads(image, |t.disk[name]|);
    assert Encode(image)[..|t.disk[name]|] == Encode(image);
    LearnAllKeeps([], image.paths, hash);
    KeysCount(LearnAll([], image.paths, hash), hash);
    assert Parse(t.disk[name]).records == image.paths;
  }

  // ---------------------------------------------------------------- every call that flushes

  /** A close, and an open of any file, write exactly what a flush would. */
  lemma CloseAndOpenFlush(s: State, name: Name, writeOk: bool, readOk: bool, hash: Hash)
    ensures DoCrash(DoClose(s, writeOk)) == DoCrash(DoFlush(s, writeOk))
    ensures DoCrash(DoOpen(s, name, writeOk, readOk, hash)) == DoCrash(DoFlush(s, writeOk))
  {
  }

  /** A failed write, a flush of a closed cache and a failed read change nothing: the old file and all
      that is known stay, and the next flush tries again. */
  lemma FailuresChangeNothing(s: State, name: Name, writeOk: bool, hash: Hash)
    ensures DoFlush(s, false) == s && (!s.enabled ==> DoFlush(s, writeOk) == s)
    ensures var t := DoOpen(s, name, writeOk, false, hash);
      t.dict == s.dict && t.harvested == {} && t.writtenPaths == 0 && t.writtenArchives == 0 && !t.stale
  {
  }

  lemma {:induction false} DigestsAscend(s: set<Digest>)
    ensures forall i, j :: 0 <= i < j < |SortedDigests(s)| ==> SortedDigests(s)[i] < SortedDigests(s)[j]
    ensures forall i :: 0 <= i < |SortedDigests(s)| ==> SortedDigests(s)[i] in s
  {
    if s != {} {
      var m := SortedDigests(s)[0];
      var rest := SortedDigests(s - {m});
      DigestsAscend(s - {m});
      assert SortedDigests(s) == [m] + rest;
      forall i | 0 <= i < |rest|
        ensures m < rest[i]
      {
        assert rest[i] in s - {m};
      }
    }
  }

  /** A flush writes the digests in ascending order and the paths in the order of their keys. */
  lemma FlushedInOrder(s: State, hash: Hash)
    requires Reachable(s, hash) && s.enabled && !UpToDate(s)
    ensures var image := DoFlush(s, true).images[s.file];
      && DoFlush(s, true).disk[s.file] == Encode(image)
      && SetOf(image.digests) == s.harvested && |image.paths| == |s.dict|
      && (forall i, j :: 0 <= i < j < |image.digests| ==> image.digests[i] < image.digests[j])
      && forall i, j :: 0 <= i < j < |image.paths| ==> hash(image.paths[i]) < hash(image.paths[j])
  {
    ReachableInv(s, hash);
    ImageIsOk(s, hash);
    DigestsAscend(s.harvested);
  }

  /** A close forgets the coverage and nothing of the dictionary; an open forgets no key either, and
      takes the file it is given as its own. */
  lemma ClosingKeepsPaths(s: State, name: Name, writeOk: bool, readOk: bool, hash: Hash)
    requires DictOk(s.dict, hash)
    ensures var t := DoClose(s, writeOk); t.dict == s.dict && !t.enabled && t.harvested == {}
    ensures var t := DoOpen(s, name, writeOk, readOk, hash);
      Keys(s.dict) <= Keys(t.dict) && t.enabled && t.file == name
  {
    var reset := Fresh(DoFlush(s, writeOk), name);
    var load := LoadOf(reset, name, readOk);
    FlushFrame(s, writeOk);
    if load.Loaded? {
      LearnAllKeeps(s.dict, load.records, hash);
    }
  }

  /** Closing a cache, or opening another in its place, keeps what it holds as a flush does. */
  lemma ClosedCacheSurvives(s: State, name: Name, readOk: bool, hash: Hash)
    requires Reachable(s, hash) && s.enabled && (s.dict != [] || s.harvested != {})
    ensures var t := DoFlush(s, true);
      var kept := Whole(t) && |t.disk[t.file]| < TELL_LIMIT;
      && (Survives(s, Restarted(DoClose(s, true), s.file, hash)) <==> kept)
      && (Survives(s, Restarted(DoOpen(s, name, true, readOk, hash), s.file, hash)) <==> kept)
      && (!s.cut || !UpToDate(s) ==> Whole(t))
  {
    FlushedCacheSurvives(s, hash);
    CloseAndOpenFlush(s, name, true, readOk, hash);
  }

  /** After a flush that reports success there is nothing left to write: the next takes the early
      return. */
  lemma FlushSettles(s: State, hash: Hash)
    requires Reachable(s, hash) && s.enabled
    ensures var t := DoFlush(s, true);
      !t.stale && t.writtenPaths == |t.dict| && t.writtenArchives == |t.harvested| && UpToDate(t)
  {
    ReachableInv(s, hash);
    if !UpToDate(s) {
      FlushedCounts(s);
    }
  }

  // ---------------------------------------------------------------- marks

  /** A mark on an open cache adds its digest, notes what is known, and changes nothing else. */
  lemma MarkRecords(s: State, d: Digest)
    ensures var t := DoMark(s, d);
      if s.enabled then
        && t.harvested == s.harvested + {d} && t.known == s.known[d := Keys(s.dict)]
        && t == s.(harvested := t.harvested, known := t.known)
      else t == s
  {
  }

  /** A mark survives: once flushed to a whole file below the size limit, it is back after a crash and
      a reopen, with every path known when it was made. A mark that is new always makes the flush
      write a whole file. */
  lemma MarkSurvives(s: State, d: Digest, hash: Hash)
    requires Reachable(s, hash) && s.enabled && Countable(DoMark(s, d))
    ensures var t := DoFlush(DoMark(s, d), true);
      var u := Restarted(t, t.file, hash);
      && (Whole(t) && |t.disk[t.file]| < TELL_LIMIT ==> d in u.harvested && Keys(s.dict) <= Keys(u.dict))
      && (d !in s.harvested && !s.cut ==> Whole(t))
  {
    var marked := DoMark(s, d);
    StaysReachable(s, Mark(d), hash);
    MarkRecords(s, d);
    FlushedCacheSurvives(marked, hash);
  }

  // ---------------------------------------------------------------- when a load is trusted

  lemma {:induction false} PathKeysBound(paths: seq<Path>, hash: Hash)
    ensures |PathKeys(paths, hash)| <= |paths|
  {
    if paths != [] {
      PathKeysBound(paths[..|paths| - 1], hash);
    }
  }

  lemma {:induction false} AllUsable(paths: seq<Path>)
    ensures Refused(paths) == 0 <==> forall i :: 0 <= i < |paths| ==> Usable(paths[i])
  {
    if paths != [] {
      AllUsable(paths[..|paths| - 1]);
    }
  }

  /** Into an empty dictionary, a load is taken at its word exactly when every declared record was
      read, every path is usable, and no two have the same key. */
  lemma FaithfulIff(load: Load, hash: Hash)
    requires load.Loaded?
    ensures Faithful(load, [], LearnAll([], load.records, hash))
       <==> && |load.records| == load.declared
            && (forall i :: 0 <= i < |load.records| ==> 1 <= |load.records[i]| <= 1024)
            && |PathKeys(load.records, hash)| == |load.records|
  {
    var after := LearnAll([], load.records, hash);
    AllUsable(load.records);
    LearnAllKeeps([], load.records, hash);
    KeysCount(after, hash);
  }
}
