/** The depot's index of src/api.cpp (reindex) and its lookup in src/archive.cpp (locate): a sorted,
    deduplicated table that must mean "the last mount wins". */
module Depot {
  import opened Options

  type Hash = nat

  datatype Segment = Segment(offset: nat, zsize: nat, size: nat)

  /** An entry of an archive's file table; its segment range is whatever the file says. */
  datatype Entry = Entry(hash: Hash, first: nat, last: nat)

  datatype Archive = Archive(entries: seq<Entry>, segments: seq<Segment>)

  datatype Ref = Ref(hash: Hash, archive: nat, entry: nat)

  // ---------------------------------------------------------------- the table as values

  /** The first `n` entries of one archive. */
  function EntryRefs(a: Archive, archive: nat, n: nat): seq<Ref>
    requires n <= |a.entries|
  {
    if n == 0 then [] else EntryRefs(a, archive, n - 1) + [Ref(a.entries[n - 1].hash, archive, n - 1)]
  }

  /** Every entry of the first `n` archives, in mount order. */
  function AllRefs(archives: seq<Archive>, n: nat): seq<Ref>
    requires n <= |archives|
  {
    if n == 0 then []
    else AllRefs(archives, n - 1) + EntryRefs(archives[n - 1], n - 1, |archives[n - 1].entries|)
  }

  /** Behind every element that is not greater. */
  function InsertStable(sorted: seq<Ref>, ref: Ref): seq<Ref> {
    if sorted == [] || sorted[|sorted| - 1].hash <= ref.hash then sorted + [ref]
    else InsertStable(sorted[..|sorted| - 1], ref) + [sorted[|sorted| - 1]]
  }

  function StableSort(refs: seq<Ref>): seq<Ref> {
    if refs == [] then [] else InsertStable(StableSort(refs[..|refs| - 1]), refs[|refs| - 1])
  }

  /** A repeated hash takes the place of the entry before it. */
  function Push(kept: seq<Ref>, ref: Ref): (r: seq<Ref>)
    ensures r != [] && r[|r| - 1] == ref && |r| <= |kept| + 1
  {
    if kept != [] && kept[|kept| - 1].hash == ref.hash then kept[..|kept| - 1] + [ref] else kept + [ref]
  }

  /** The last of each run of equal hashes. */
  function LastOfRuns(refs: seq<Ref>): (r: seq<Ref>)
    ensures |r| <= |refs| && (refs != [] ==> r != [] && r[|r| - 1] == refs[|refs| - 1])
  {
    if refs == [] then [] else Push(LastOfRuns(refs[..|refs| - 1]), refs[|refs| - 1])
  }

  function Index(archives: seq<Archive>): seq<Ref> {
    LastOfRuns(StableSort(AllRefs(archives, |archives|)))
  }

  /** std::lower_bound: the first position whose hash is not less. */
  function LowerBound(refs: seq<Ref>, hash: Hash): (i: nat)
    ensures i <= |refs|
  {
    if refs == [] || refs[0].hash >= hash then 0 else 1 + LowerBound(refs[1..], hash)
  }

  function Locate(refs: seq<Ref>, archives: nat, hash: Hash): Option<Ref> {
    var i := LowerBound(refs, hash);
    if i == |refs| || refs[i].hash != hash then None
    else if refs[i].archive >= archives then None
    else Some(refs[i])
  }

  // ---------------------------------------------------------------- the loops

  class Depot {
    var archives: seq<Archive>
    var refs: seq<Ref>

    constructor ()
      ensures archives == [] && refs == Index([])
    {
      archives, refs := [], [];
    }

    method CollectRefs()
      modifies this`refs
      ensures refs == AllRefs(archives, |archives|)
    {
      refs := [];
      for ai := 0 to |archives|
        invariant refs == AllRefs(archives, ai)
      {
        ghost var before := refs;
        for e := 0 to |archives[ai].entries|
          invariant refs == before + EntryRefs(archives[ai], ai, e)
        {
          refs := refs + [Ref(archives[ai].entries[e].hash, ai, e)];
        }
      }
    }

    /** One step of the compaction: overwrites the previous slot if the hash repeats. */
    method Keep(w: nat, r: nat) returns (next: nat)
      requires w <= r < |refs|
      modifies this`refs
      ensures |refs| == |old(refs)| && next <= r + 1 && refs[..next] == Push(old(refs[..w]), old(refs[r]))
      ensures forall k :: r < k < |refs| ==> refs[k] == old(refs[k])
    {
      if w > 0 && refs[w - 1].hash == refs[r].hash {
        refs := refs[w - 1 := refs[r]];
        next := w;
      } else {
        refs := refs[w := refs[r]];
        next := w + 1;
      }
    }

    /** Compacts in place and shrinks to what was kept. */
    method Compact()
      modifies this`refs
      ensures refs == LastOfRuns(old(refs))
    {
      ghost var sorted := refs;
      var w := 0;
      for r := 0 to |refs|
        invariant 0 <= w <= r && |refs| == |sorted|
        invariant refs[..w] == LastOfRuns(sorted[..r])
        invariant forall k :: r <= k < |refs| ==> refs[k] == sorted[k]
      {
        assert sorted[..r + 1][..r] == sorted[..r];
        w := Keep(w, r);
      }
      assert sorted[..|sorted|] == sorted;
      refs := refs[..w];
    }

    method Reindex()
      modifies this`refs
      ensures refs == Index(archives)
    {
      CollectRefs();
      refs := StableSort(refs);
      Compact();
    }

    /** One archive, or all that a directory yields: pushed in order, then one rebuild. */
    method Mount(more: seq<Archive>)
      modifies this
      ensures archives == old(archives) + more && refs == Index(archives)
    {
      archives := archives + more;
      Reindex();
    }
  }

  // ---------------------------------------------------------------- what the sort means

  function Of(refs: seq<Ref>, hash: Hash): seq<Ref> {
    if refs == [] then []
    else
      var before, last := Of(refs[..|refs| - 1], hash), refs[|refs| - 1];
      if last.hash == hash then before + [last] else before
  }

  predicate Sorted(refs: seq<Ref>) {
    forall i, j :: 0 <= i < j < |refs| ==> refs[i].hash <= refs[j].hash
  }

  predicate Increasing(refs: seq<Ref>) {
    forall i, j :: 0 <= i < j < |refs| ==> refs[i].hash < refs[j].hash
  }

  lemma {:induction false} OfAbsent(refs: seq<Ref>, hash: Hash)
    requires forall i :: 0 <= i < |refs| ==> refs[i].hash != hash
    ensures Of(refs, hash) == []
  {
    if refs != [] {
      OfAbsent(refs[..|refs| - 1], hash);
    }
  }

  /** The table with one entry more: sorted, with the same entries, and the new one last of its hash. */
  ghost predicate Inserted(r: seq<Ref>, sorted: seq<Ref>, ref: Ref, hash: Hash) {
    && |r| == |sorted| + 1 && Sorted(r)
    && (forall x :: x in r <==> x in sorted || x == ref)
    && Of(r, hash) == if ref.hash == hash then Of(sorted, hash) + [ref] else Of(sorted, hash)
  }

  lemma InsertBehind(inner: seq<Ref>, front: seq<Ref>, last: Ref, ref: Ref, hash: Hash)
    requires Inserted(inner, front, ref, hash) && Sorted(front + [last]) && ref.hash < last.hash
    ensures Inserted(inner + [last], front + [last], ref, hash)
  {
    var r, sorted := inner + [last], front + [last];
    assert r[..|inner|] == inner && sorted[..|front|] == front;
    forall i | 0 <= i < |inner|
      ensures inner[i].hash <= last.hash
    {
      assert inner[i] in inner;
      if inner[i] in front {
        var k :| 0 <= k < |front| && front[k] == inner[i];
        assert sorted[k] == front[k] && sorted[|front|] == last;
      }
    }
  }

  lemma {:induction false} InsertIsStable(sorted: seq<Ref>, ref: Ref, hash: Hash)
    requires Sorted(sorted)
    ensures Inserted(InsertStable(sorted, ref), sorted, ref, hash)
  {
    if sorted == [] || sorted[|sorted| - 1].hash <= ref.hash {
      assert (sorted + [ref])[..|sorted|] == sorted;
    } else {
      var front, last := sorted[..|sorted| - 1], sorted[|sorted| - 1];
      assert sorted == front + [last];
      InsertIsStable(front, ref, hash);
      InsertBehind(InsertStable(front, ref), front, last, ref, hash);
    }
  }

  /** The sort is sorted, and entries of one hash keep their mount order. */
  lemma {:induction false} SortIsStable(refs: seq<Ref>, hash: Hash)
    ensures Sorted(StableSort(refs)) && Of(StableSort(refs), hash) == Of(refs, hash)
  {
    if refs != [] {
      SortIsStable(refs[..|refs| - 1], hash);
      InsertIsStable(StableSort(refs[..|refs| - 1]), refs[|refs| - 1], hash);
    }
  }

  /** What a lookup must find among entries in mount order: the last of its hash. */
  function LastOf(refs: seq<Ref>, hash: Hash): Option<Ref> {
    var all := Of(refs, hash);
    if all == [] then None else Some(all[|all| - 1])
  }

  /** The entry fits behind a strictly increasing table whose last entry it may repeat. */
  predicate Fits(kept: seq<Ref>, ref: Ref) {
    Increasing(kept) && (kept != [] ==> kept[|kept| - 1].hash <= ref.hash)
  }

  lemma PushIncreases(kept: seq<Ref>, ref: Ref)
    requires Fits(kept, ref)
    ensures Increasing(Push(kept, ref))
  {
  }

  lemma PushKeepsLast(kept: seq<Ref>, ref: Ref, hash: Hash)
    requires Fits(kept, ref)
    ensures Of(Push(kept, ref), hash) == if hash == ref.hash then [ref] else Of(kept, hash)
  {
    var r := Push(kept, ref);
    var rest := r[..|r| - 1];
    if hash == ref.hash {
      OfAbsent(rest, hash);
    }
    assert rest == kept || rest == kept[..|kept| - 1];
  }

  lemma {:induction false} RunsIncrease(refs: seq<Ref>)
    requires Sorted(refs)
    ensures Increasing(LastOfRuns(refs))
    ensures refs != [] ==> Fits(LastOfRuns(refs[..|refs| - 1]), refs[|refs| - 1])
  {
    if refs != [] {
      RunsIncrease(refs[..|refs| - 1]);
      PushIncreases(LastOfRuns(refs[..|refs| - 1]), refs[|refs| - 1]);
    }
  }

  function Kept(o: Option<Ref>): seq<Ref> {
    if o.None? then [] else [o.value]
  }

  /** Compacting a sorted table leaves one entry a hash, the last. */
  lemma {:induction false} RunsKeepLast(refs: seq<Ref>, hash: Hash)
    requires Sorted(refs)
    ensures Of(LastOfRuns(refs), hash) == Kept(LastOf(refs, hash))
  {
    if refs != [] {
      RunsKeepLast(refs[..|refs| - 1], hash);
      RunsIncrease(refs);
      PushKeepsLast(LastOfRuns(refs[..|refs| - 1]), refs[|refs| - 1], hash);
    }
  }

  lemma OneKept(refs: seq<Ref>, o: Option<Ref>, hash: Hash)
    requires Of(refs, hash) == Kept(o)
    ensures LastOf(refs, hash) == o
  {
  }

  // ---------------------------------------------------------------- the last mount wins

  lemma {:induction false} LowerBoundSplits(refs: seq<Ref>, hash: Hash)
    requires Increasing(refs)
    ensures var i := LowerBound(refs, hash);
      && (forall j :: 0 <= j < i ==> refs[j].hash < hash)
      && (forall j :: i <= j < |refs| ==> refs[j].hash >= hash)
  {
    if refs != [] && refs[0].hash < hash {
      LowerBoundSplits(refs[1..], hash);
      var i := LowerBound(refs[1..], hash);
      forall j | 0 <= j < |refs|
        ensures if j < i + 1 then refs[j].hash < hash else refs[j].hash >= hash
      {
        if j > 0 {
          assert refs[j] == refs[1..][j - 1];
        }
      }
    }
  }

  lemma {:induction false} OfMembers(refs: seq<Ref>, hash: Hash)
    ensures forall x :: x in Of(refs, hash) <==> x in refs && x.hash == hash
  {
    if refs != [] {
      OfMembers(refs[..|refs| - 1], hash);
      assert refs == refs[..|refs| - 1] + [refs[|refs| - 1]];
    }
  }

  /** Binary search on a strictly increasing table finds the one entry of the hash. */
  lemma FindsTheOne(refs: seq<Ref>, hash: Hash)
    requires Increasing(refs)
    ensures var i := LowerBound(refs, hash);
      LastOf(refs, hash) == if i == |refs| || refs[i].hash != hash then None else Some(refs[i])
  {
    var i := LowerBound(refs, hash);
    LowerBoundSplits(refs, hash);
    OfMembers(refs, hash);
    if i == |refs| || refs[i].hash != hash {
      forall j | 0 <= j < |refs| ensures refs[j].hash != hash {
      }
      OfAbsent(refs, hash);
    } else {
      var all := Of(refs, hash);
      assert refs[i] in refs;
      assert all[|all| - 1] in all;
    }
  }

  /** The entry is the last of its hash: no later archive holds the hash, nor does a later entry of
      the same archive. */
  predicate Wins(archives: seq<Archive>, hash: Hash, ref: Ref) {
    && ref.archive < |archives| && ref.entry < |archives[ref.archive].entries| && ref.hash == hash
    && archives[ref.archive].entries[ref.entry].hash == hash
    && (forall e :: ref.entry < e < |archives[ref.archive].entries| ==>
          archives[ref.archive].entries[e].hash != hash)
    && forall a :: ref.archive < a < |archives| ==> !Holds(archives[a], hash)
  }

  predicate Holds(a: Archive, hash: Hash) {
    exists e :: 0 <= e < |a.entries| && a.entries[e].hash == hash
  }

  /** What a lookup finds among archives in mount order. */
  predicate Answers(archives: seq<Archive>, hash: Hash, found: Option<Ref>) {
    match found
    case None => forall a :: 0 <= a < |archives| ==> !Holds(archives[a], hash)
    case Some(ref) => Wins(archives, hash, ref)
  }

  lemma {:induction false} LastEntry(a: Archive, archive: nat, n: nat, hash: Hash)
    requires n <= |a.entries|
    ensures var r := LastOf(EntryRefs(a, archive, n), hash);
      if r.None? then forall e :: 0 <= e < n ==> a.entries[e].hash != hash
      else
        && r.value.archive == archive && r.value.entry < n && r.value.hash == hash
        && a.entries[r.value.entry].hash == hash
        && forall e :: r.value.entry < e < n ==> a.entries[e].hash != hash
  {
    if n > 0 {
      LastEntry(a, archive, n - 1, hash);
      var refs := EntryRefs(a, archive, n);
      assert refs[..|refs| - 1] == EntryRefs(a, archive, n - 1);
    }
  }

  lemma {:induction false} OfAppend(a: seq<Ref>, b: seq<Ref>, hash: Hash)
    ensures Of(a + b, hash) == Of(a, hash) + Of(b, hash)
  {
    if b == [] {
      assert a + b == a;
    } else {
      var front := b[..|b| - 1];
      OfAppend(a, front, hash);
      assert (a + b)[..|a + b| - 1] == a + front;
    }
  }

  lemma LastOfAppend(a: seq<Ref>, b: seq<Ref>, hash: Hash)
    ensures LastOf(a + b, hash) == if LastOf(b, hash).Some? then LastOf(b, hash) else LastOf(a, hash)
  {
    OfAppend(a, b, hash);
  }

  lemma {:induction false} LastMount(archives: seq<Archive>, n: nat, hash: Hash)
    requires n <= |archives|
    ensures var r := LastOf(AllRefs(archives, n), hash);
      if r.None? then forall a :: 0 <= a < n ==> !Holds(archives[a], hash)
      else Wins(archives[..n], hash, r.value)
  {
    if n > 0 {
      LastMount(archives, n - 1, hash);
      var a := archives[n - 1];
      LastOfAppend(AllRefs(archives, n - 1), EntryRefs(a, n - 1, |a.entries|), hash);
      LastEntry(a, n - 1, |a.entries|, hash);
    }
  }

  lemma IndexFindsLast(archives: seq<Archive>, hash: Hash)
    ensures Increasing(Index(archives))
    ensures LastOf(Index(archives), hash) == LastOf(AllRefs(archives, |archives|), hash)
  {
    var all := AllRefs(archives, |archives|);
    var sorted := StableSort(all);
    SortIsStable(all, hash);
    RunsIncrease(sorted);
    RunsKeepLast(sorted, hash);
    OneKept(Index(archives), LastOf(sorted, hash), hash);
  }

  /** A lookup in the rebuilt table finds the last mounted entry of the hash, and misses exactly when
      no archive holds it; the re-check of the archive number never fires. */
  lemma LastMountWins(archives: seq<Archive>, hash: Hash)
    ensures Increasing(Index(archives))
    ensures Answers(archives, hash, Locate(Index(archives), |archives|, hash))
  {
    IndexFindsLast(archives, hash);
    FindsTheOne(Index(archives), hash);
    LastMount(archives, |archives|, hash);
    assert archives[..|archives|] == archives;
  }

  lemma WinnerIsUnique(archives: seq<Archive>, hash: Hash, a: Ref, b: Ref)
    requires Wins(archives, hash, a) && Wins(archives, hash, b)
    ensures a == b
  {
    assert Holds(archives[a.archive], hash) && Holds(archives[b.archive], hash);
  }

  lemma OneAnswer(archives: seq<Archive>, hash: Hash, a: Option<Ref>, b: Option<Ref>)
    requires Answers(archives, hash, a) && Answers(archives, hash, b)
    ensures a == b
  {
    if a.Some? {
      assert Holds(archives[a.value.archive], hash);
    }
    if b.Some? {
      assert Holds(archives[b.value.archive], hash);
    }
    if a.Some? && b.Some? {
      WinnerIsUnique(archives, hash, a.value, b.value);
    }
  }

  lemma KeptAnswers(archives: seq<Archive>, more: seq<Archive>, hash: Hash, found: Option<Ref>)
    requires Answers(more, hash, None) && Answers(archives, hash, found)
    ensures Answers(archives + more, hash, found)
  {
    var all := archives + more;
    forall a | |archives| <= a < |all| ensures !Holds(all[a], hash) {
      assert all[a] == more[a - |archives|];
    }
    assert forall a :: 0 <= a < |archives| ==> all[a] == archives[a];
  }

  lemma ShiftedWins(archives: seq<Archive>, more: seq<Archive>, hash: Hash, ref: Ref)
    requires Wins(more, hash, ref)
    ensures Wins(archives + more, hash, ref.(archive := |archives| + ref.archive))
  {
    var all := archives + more;
    forall a | |archives| + ref.archive < a < |all| ensures !Holds(all[a], hash) {
      assert all[a] == more[a - |archives|];
    }
  }

  /** The answer for both lots of archives, from the answers for each. */
  function Overridden(before: Option<Ref>, added: Option<Ref>, shift: nat): Option<Ref> {
    if added.Some? then Some(added.value.(archive := shift + added.value.archive)) else before
  }

  lemma OverrideAnswers(archives: seq<Archive>, more: seq<Archive>, hash: Hash, before: Option<Ref>, added: Option<Ref>)
    requires Answers(archives, hash, before) && Answers(more, hash, added)
    ensures Answers(archives + more, hash, Overridden(before, added, |archives|))
  {
    if added.Some? {
      ShiftedWins(archives, more, hash, added.value);
    } else {
      KeptAnswers(archives, more, hash, before);
    }
  }

  /** What looking a hash up in a depot of these archives gives. */
  function Find(archives: seq<Archive>, hash: Hash): Option<Ref> {
    Locate(Index(archives), |archives|, hash)
  }

  /** Mounting more archives overrides the old view by theirs: a hash they hold is looked up among
      them, and any other is found where it was. */
  lemma MountIsOverride(archives: seq<Archive>, more: seq<Archive>, hash: Hash)
    ensures Find(archives + more, hash) == Overridden(Find(archives, hash), Find(more, hash), |archives|)
  {
    var before, added, now := Find(archives, hash), Find(more, hash), Find(archives + more, hash);
    LastMountWins(archives, hash);
    LastMountWins(more, hash);
    LastMountWins(archives + more, hash);
    OverrideAnswers(archives, more, hash, before, added);
    OneAnswer(archives + more, hash, now, Overridden(before, added, |archives|));
  }
}
