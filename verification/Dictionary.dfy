/** The hash-to-path dictionary of src/paths.cpp: a sorted run, a pending run, and strings in the arena. */
module Dictionary {
  import opened Bytes
  import opened Arena
  import opened Options

  type Key = nat

  const MAX_PATH_LENGTH: nat := 1024
  const MERGE_THRESHOLD: nat := 4096

  datatype Entry = Entry(hash: Key, str: Ptr)

  // ---------------------------------------------------------------- runs of entries

  predicate StrictlySorted(s: seq<Entry>) {
    forall i, j :: 0 <= i < j < |s| ==> s[i].hash < s[j].hash
  }

  predicate Distinct(s: seq<Entry>) {
    forall i, j :: 0 <= i < j < |s| ==> s[i].hash != s[j].hash
  }

  function InsertEntry(e: Entry, s: seq<Entry>): seq<Entry> {
    if s == [] || e.hash <= s[0].hash then [e] + s else [s[0]] + InsertEntry(e, s[1..])
  }

  /** std::sort by hash. */
  function SortEntries(s: seq<Entry>): seq<Entry> {
    if s == [] then [] else InsertEntry(s[0], SortEntries(s[1..]))
  }

  /** std::inplace_merge of two sorted runs: stable, the first run wins ties. */
  function Merge(a: seq<Entry>, b: seq<Entry>): seq<Entry> {
    if a == [] then b
    else if b == [] then a
    else if b[0].hash < a[0].hash then [b[0]] + Merge(a, b[1..])
    else [a[0]] + Merge(a[1..], b)
  }

  /** std::unique by hash: the first of each run of equals stays. */
  function Unique(s: seq<Entry>): seq<Entry> {
    if |s| < 2 then s
    else if s[|s| - 2].hash == s[|s| - 1].hash then Unique(s[..|s| - 1])
    else Unique(s[..|s| - 1]) + [s[|s| - 1]]
  }

  lemma {:induction false} InsertEntryOk(e: Entry, s: seq<Entry>)
    requires StrictlySorted(s) && forall x :: x in s ==> x.hash != e.hash
    ensures StrictlySorted(InsertEntry(e, s))
    ensures forall x :: x in InsertEntry(e, s) <==> x == e || x in s
  {
    if s != [] && s[0].hash < e.hash {
      var rest := InsertEntry(e, s[1..]);
      InsertEntryOk(e, s[1..]);
      assert forall x :: x in s <==> x == s[0] || x in s[1..];
      forall i | 0 <= i < |rest|
        ensures s[0].hash < rest[i].hash
      {
        assert rest[i] in rest;
      }
    }
  }

  lemma {:induction false} SortEntriesOk(s: seq<Entry>)
    requires Distinct(s)
    ensures StrictlySorted(SortEntries(s))
    ensures forall x :: x in SortEntries(s) <==> x in s
  {
    if s != [] {
      SortEntriesOk(s[1..]);
      assert forall x :: x in s <==> x == s[0] || x in s[1..];
      InsertEntryOk(s[0], SortEntries(s[1..]));
    }
  }

  predicate Disjoint(a: seq<Entry>, b: seq<Entry>) {
    forall x, y :: x in a && y in b ==> x.hash != y.hash
  }

  lemma {:induction false} MergeElements(a: seq<Entry>, b: seq<Entry>)
    ensures forall x :: x in Merge(a, b) <==> x in a || x in b
    decreases |a| + |b|
  {
    if a != [] && b != [] {
      if b[0].hash < a[0].hash {
        MergeElements(a, b[1..]);
        assert forall x :: x in b <==> x == b[0] || x in b[1..];
      } else {
        MergeElements(a[1..], b);
        assert forall x :: x in a <==> x == a[0] || x in a[1..];
      }
    }
  }

  lemma Prepend(e: Entry, rest: seq<Entry>)
    requires StrictlySorted(rest) && forall x :: x in rest ==> e.hash < x.hash
    ensures StrictlySorted([e] + rest)
  {
    assert forall i :: 0 <= i < |rest| ==> rest[i] in rest;
  }

  lemma MergeSecond(a: seq<Entry>, b: seq<Entry>)
    requires a != [] && b != [] && StrictlySorted(a) && StrictlySorted(b) && b[0].hash < a[0].hash
    requires StrictlySorted(Merge(a, b[1..]))
    ensures StrictlySorted([b[0]] + Merge(a, b[1..]))
  {
    MergeElements(a, b[1..]);
    Prepend(b[0], Merge(a, b[1..]));
  }

  lemma MergeFirst(a: seq<Entry>, b: seq<Entry>)
    requires a != [] && b != [] && StrictlySorted(a) && StrictlySorted(b) && a[0].hash < b[0].hash
    requires StrictlySorted(Merge(a[1..], b))
    ensures StrictlySorted([a[0]] + Merge(a[1..], b))
  {
    MergeElements(a[1..], b);
    Prepend(a[0], Merge(a[1..], b));
  }

  lemma {:induction false} MergeSorted(a: seq<Entry>, b: seq<Entry>)
    requires StrictlySorted(a) && StrictlySorted(b) && Disjoint(a, b)
    ensures StrictlySorted(Merge(a, b))
    decreases |a| + |b|
  {
    if a != [] && b != [] {
      assert a[0] in a && b[0] in b;
      if b[0].hash < a[0].hash {
        MergeSorted(a, b[1..]);
        MergeSecond(a, b);
      } else {
        MergeSorted(a[1..], b);
        MergeFirst(a, b);
      }
    }
  }

  lemma {:induction false} UniqueFixed(s: seq<Entry>)
    requires StrictlySorted(s)
    ensures Unique(s) == s
  {
    if |s| >= 2 {
      UniqueFixed(s[..|s| - 1]);
    }
  }

  // ---------------------------------------------------------------- the map a run stands for

  /** The earlier entry wins, though runs never hold a key twice. */
  function ViewOf(s: seq<Entry>, live: map<Ptr, CString>): map<Key, CString>
    requires forall x :: x in s ==> x.str in live
  {
    if s == [] then map[] else ViewOf(s[1..], live)[s[0].hash := live[s[0].str]]
  }

  lemma {:induction false} ViewOfKeys(s: seq<Entry>, live: map<Ptr, CString>, k: Key)
    requires forall x :: x in s ==> x.str in live
    ensures k in ViewOf(s, live) <==> exists x :: x in s && x.hash == k
  {
    if s != [] {
      ViewOfKeys(s[1..], live, k);
      assert forall x :: x in s <==> x == s[0] || x in s[1..];
    }
  }

  lemma {:induction false} ViewOfValue(s: seq<Entry>, live: map<Ptr, CString>, e: Entry)
    requires Distinct(s) && e in s && forall x :: x in s ==> x.str in live
    ensures e.hash in ViewOf(s, live) && ViewOf(s, live)[e.hash] == live[e.str]
  {
    if e != s[0] {
      ViewOfValue(s[1..], live, e);
    }
  }

  /** Runs with the same entries stand for the same map, in whatever order. */
  lemma SameEntriesSameView(s: seq<Entry>, t: seq<Entry>, live: map<Ptr, CString>)
    requires Distinct(s) && Distinct(t) && forall x :: x in s <==> x in t
    requires forall x :: x in s ==> x.str in live
    ensures ViewOf(s, live) == ViewOf(t, live)
  {
    forall k
      ensures k in ViewOf(s, live) <==> k in ViewOf(t, live)
      ensures k in ViewOf(s, live) ==> ViewOf(s, live)[k] == ViewOf(t, live)[k]
    {
      ViewOfKeys(s, live, k);
      ViewOfKeys(t, live, k);
      if k in ViewOf(s, live) {
        var x :| x in s && x.hash == k;
        ViewOfValue(s, live, x);
        ViewOfValue(t, live, x);
      }
    }
  }

  lemma {:induction false} ViewOfGrows(s: seq<Entry>, live: map<Ptr, CString>, live': map<Ptr, CString>)
    requires forall x :: x in s ==> x.str in live && x.str in live' && live'[x.str] == live[x.str]
    ensures ViewOf(s, live) == ViewOf(s, live')
  {
    if s != [] {
      ViewOfGrows(s[1..], live, live');
    }
  }

  lemma {:induction false} ViewOfSnoc(s: seq<Entry>, e: Entry, live: map<Ptr, CString>)
    requires e.str in live && (forall x :: x in s ==> x.str in live && x.hash != e.hash)
    ensures ViewOf(s + [e], live) == ViewOf(s, live)[e.hash := live[e.str]]
  {
    if s == [] {
      assert [e][1..] == [];
    } else {
      assert (s + [e])[1..] == s[1..] + [e];
      ViewOfSnoc(s[1..], e, live);
    }
  }

  lemma RunsAreDisjoint(sorted: seq<Entry>, pending: seq<Entry>)
    requires Distinct(sorted + pending)
    ensures Distinct(pending) && Disjoint(sorted, pending) && Disjoint(sorted, SortEntries(pending))
  {
    var all := sorted + pending;
    forall i, j | 0 <= i < j < |pending|
      ensures pending[i].hash != pending[j].hash
    {
      assert all[|sorted| + i] == pending[i] && all[|sorted| + j] == pending[j];
    }
    forall x, y | x in sorted && y in pending
      ensures x.hash != y.hash
    {
      var i :| 0 <= i < |sorted| && sorted[i] == x;
      var j :| 0 <= j < |pending| && pending[j] == y;
      assert all[i] == x && all[|sorted| + j] == y;
    }
    SortEntriesOk(pending);
  }

  lemma {:induction false} ViewOfSize(s: seq<Entry>, live: map<Ptr, CString>)
    requires Distinct(s) && forall x :: x in s ==> x.str in live
    ensures |ViewOf(s, live)| == |s|
  {
    if s != [] {
      ViewOfSize(s[1..], live);
      ViewOfKeys(s[1..], live, s[0].hash);
    }
  }

  predicate Backed(s: seq<Entry>, live: map<Ptr, CString>) {
    forall x :: x in s ==> x.str in live
  }

  /** Sorting the pending run and merging it in keeps the entries, hence the map. */
  lemma MergeRuns(sorted: seq<Entry>, pending: seq<Entry>, live: map<Ptr, CString>)
    requires StrictlySorted(sorted) && Distinct(sorted + pending) && Backed(sorted + pending, live)
    ensures var merged := Unique(Merge(sorted, SortEntries(pending)));
      && StrictlySorted(merged) && Backed(merged, live)
      && ViewOf(merged, live) == ViewOf(sorted + pending, live)
      && (forall x :: x in merged <==> x in sorted + pending)
  {
    var run := SortEntries(pending);
    RunsAreDisjoint(sorted, pending);
    SortEntriesOk(pending);
    MergeSorted(sorted, run);
    MergeElements(sorted, run);
    UniqueFixed(Merge(sorted, run));
    SameEntriesSameView(sorted + pending, Merge(sorted, run), live);
  }

  /** An entry for a new key, whose string has just been interned, extends the map by that key. */
  lemma AddEntry(entries: seq<Entry>, e: Entry, live: map<Ptr, CString>, live': map<Ptr, CString>)
    requires Distinct(entries) && Backed(entries, live) && e.hash !in ViewOf(entries, live)
    requires e.str !in live && e.str in live' && forall p :: p in live ==> p in live' && live'[p] == live[p]
    ensures Distinct(entries + [e]) && Backed(entries + [e], live')
    ensures ViewOf(entries + [e], live') == ViewOf(entries, live)[e.hash := live'[e.str]]
  {
    forall x | x in entries
      ensures x.hash != e.hash
    {
      ViewOfKeys(entries, live, e.hash);
    }
    assert forall i :: 0 <= i < |entries| ==> entries[i] in entries;
    ViewOfGrows(entries, live, live');
    ViewOfSnoc(entries, e, live');
  }

  lemma AddPending(sorted: seq<Entry>, pending: seq<Entry>, e: Entry, text: CString, live: map<Ptr, CString>)
    requires Distinct(sorted + pending) && Backed(sorted + pending, live) && e.hash !in ViewOf(sorted + pending, live)
    requires e.str !in live
    ensures Distinct(sorted + (pending + [e])) && Backed(sorted + (pending + [e]), live[e.str := text])
    ensures ViewOf(sorted + (pending + [e]), live[e.str := text]) == ViewOf(sorted + pending, live)[e.hash := text]
  {
    AddEntry(sorted + pending, e, live, live[e.str := text]);
    assert sorted + (pending + [e]) == (sorted + pending) + [e];
  }

  lemma Absent(s: seq<Entry>, at: nat, hash: Key, live: map<Ptr, CString>)
    requires StrictlySorted(s) && Backed(s, live) && at <= |s|
    requires forall i :: 0 <= i < at ==> s[i].hash < hash
    requires forall i :: at <= i < |s| ==> hash <= s[i].hash
    ensures hash in ViewOf(s, live) <==> at < |s| && s[at].hash == hash
    ensures hash in ViewOf(s, live) ==> ViewOf(s, live)[hash] == live[s[at].str]
  {
    ViewOfKeys(s, live, hash);
    if at < |s| && s[at].hash == hash {
      assert s[at] in s;
      ViewOfValue(s, live, s[at]);
    }
  }

  // ---------------------------------------------------------------- the object

  class Dictionary {
    const strings: Arena
    var sorted: seq<Entry>
    var pending: seq<Entry>

    ghost predicate Valid()
      reads this, strings, strings.blocks
    {
      && strings.Valid()
      && StrictlySorted(sorted) && Distinct(sorted + pending)
      && forall x :: x in sorted + pending ==> x.str in strings.live
    }

    /** The one hash-to-string map the two runs represent. */
    ghost function View(): map<Key, CString>
      requires Valid()
      reads this, strings, strings.blocks
    {
      ViewOf(sorted + pending, strings.live)
    }

    constructor ()
      ensures Valid() && View() == map[] && fresh(strings)
    {
      strings := new Arena();
      sorted, pending := [], [];
    }

    /** Merging changes the representation and nothing else. */
    method MergePending()
      requires Valid()
      modifies this
      ensures Valid() && pending == [] && View() == old(View())
      ensures forall x :: x in sorted <==> x in old(sorted) + old(pending)
    {
      if |pending| == 0 {
        assert sorted + pending == sorted;
        return;
      }
      MergeRuns(sorted, pending, strings.live);
      var run := SortEntries(pending);
      sorted := Merge(sorted, run);
      pending := [];
      sorted := Unique(sorted);
      assert sorted + pending == sorted;
    }

    /** std::lower_bound over the sorted run. */
    method LowerBound(hash: Key) returns (at: nat)
      requires StrictlySorted(sorted)
      ensures at <= |sorted|
      ensures forall i :: 0 <= i < at ==> sorted[i].hash < hash
      ensures forall i :: at <= i < |sorted| ==> hash <= sorted[i].hash
    {
      var high := |sorted|;
      at := 0;
      while at < high
        invariant at <= high <= |sorted|
        invariant forall i :: 0 <= i < at ==> sorted[i].hash < hash
        invariant forall i :: high <= i < |sorted| ==> hash <= sorted[i].hash
      {
        var mid := at + (high - at) / 2;
        if sorted[mid].hash < hash {
          at := mid + 1;
        } else {
          high := mid;
        }
      }
    }

    method Contains(hash: Key) returns (found: bool)
      requires Valid()
      ensures found == (hash in View())
    {
      ViewOfKeys(sorted + pending, strings.live, hash);
      var at := LowerBound(hash);
      if at < |sorted| && sorted[at].hash == hash {
        assert sorted[at] in sorted + pending;
        return true;
      }
      assert forall x :: x in sorted ==> x.hash != hash;
      for i := 0 to |pending|
        invariant forall j :: 0 <= j < i ==> pending[j].hash != hash
      {
        if pending[i].hash == hash {
          assert pending[i] in sorted + pending;
          return true;
        }
      }
      found := false;
    }

    /** An entry for a string just interned goes to the end of the pending run. */
    method Enqueue(e: Entry, ghost text: CString, ghost live: map<Ptr, CString>)
      requires strings.Valid() && StrictlySorted(sorted) && Distinct(sorted + pending)
      requires Backed(sorted + pending, live) && e.hash !in ViewOf(sorted + pending, live)
      requires e.str !in live && strings.live == live[e.str := text]
      modifies this`pending
      ensures Valid() && View() == old(ViewOf(sorted + pending, live))[e.hash := text]
    {
      AddPending(sorted, pending, e, text, live);
      pending := pending + [e];
    }

    /** Interns the string of a new key and appends its entry to the pending run. */
    method Append(path: CString, hash: Key)
      requires Valid() && hash !in View()
      modifies this, strings, set b | b in strings.blocks
      ensures Valid() && View() == old(View())[hash := path]
      ensures forall p :: p in old(strings.live) ==> p in strings.live && strings.live[p] == old(strings.live)[p]
    {
      ghost var live := strings.live;
      var p := strings.Intern(path);
      Enqueue(Entry(hash, p), path, live);
    }

    /** First writer wins; a path past the limit is ignored; every pointer handed out earlier still
        reads the same string. */
    method Add(path: CString, hash: Key)
      requires Valid()
      modifies this, strings, set b | b in strings.blocks
      ensures Valid()
      ensures View() == if |path| > MAX_PATH_LENGTH || hash in old(View()) then old(View())
                        else old(View())[hash := path]
      ensures forall p :: p in old(strings.live) ==> p in strings.live && strings.live[p] == old(strings.live)[p]
    {
      if |path| > MAX_PATH_LENGTH {
        return;
      }
      var present := Contains(hash);
      if present {
        return;
      }
      Append(path, hash);
      if |pending| > MERGE_THRESHOLD {
        MergePending();
      }
    }

    /** path_from_hash: a hit is a pointer whose string is the one on file. */
    method PathFromHash(hash: Key) returns (p: Option<Ptr>)
      requires Valid()
      modifies this
      ensures Valid() && View() == old(View())
      ensures p.Some? <==> hash in View()
      ensures p.Some? ==> p.value in strings.live && strings.live[p.value] == View()[hash]
    {
      MergePending();
      assert sorted + pending == sorted;
      var at := LowerBound(hash);
      Absent(sorted, at, hash, strings.live);
      if at == |sorted| || sorted[at].hash != hash {
        return None;
      }
      assert sorted[at] in sorted;
      p := Some(sorted[at].str);
    }

    method PathsCount() returns (n: nat)
      requires Valid()
      modifies this
      ensures Valid() && View() == old(View()) && n == |View()|
    {
      MergePending();
      assert sorted + pending == sorted;
      ViewOfSize(sorted, strings.live);
      n := |sorted|;
    }
  }
}
