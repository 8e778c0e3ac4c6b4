/** paths_find of src/paths.cpp: the pattern, the scan of the dictionary, the delivery. */
module PathSearch {
  import opened Bytes
  import opened Options
  import opened Glob
  import opened Arena
  import opened Dictionary
  import PathText

  /** Hits are delivered until the callback, asked with the number already delivered, says stop; the
      total is counted before the first delivery. */
  datatype Outcome =
    | InvalidPattern
    | NoDictionary
    | Found(total: nat, delivered: seq<Key>)

  predicate Present(hash: Key, here: Option<Key -> bool>) {
    here.None? || here.value(hash)
  }

  // ---------------------------------------------------------------- patterns are C strings

  lemma {:induction false} PushAllNulFree(s: Bytes)
    requires NulFree(s)
    ensures NulFree(PathText.PushAll(s))
  {
    if s != [] {
      PushAllNulFree(s[..|s| - 1]);
    }
  }

  lemma {:induction false} TrimNulFree(s: Bytes)
    requires NulFree(s)
    ensures NulFree(PathText.TrimStart(s)) && NulFree(PathText.TrimEnd(s)) && NulFree(PathText.TrimNoise(s))
  {
    if s != [] {
      TrimNulFree(s[1..]);
      TrimNulFree(s[..|s| - 1]);
    }
  }

  lemma PatternNulFree(raw: CString)
    ensures var p := PathText.SearchPattern(raw); p.Pattern? ==> NulFree(p.text)
  {
    var trimmed := PathText.TrimNoise(raw);
    TrimNulFree(raw);
    TrimNulFree(trimmed);
    TrimNulFree(PathText.TrimStart(trimmed));
    PushAllNulFree(PathText.TrimEnd(PathText.TrimStart(trimmed)));
  }

  // ---------------------------------------------------------------- the scan

  predicate IsHit(e: Entry, live: map<Ptr, CString>, pattern: Bytes, here: Option<Key -> bool>)
    requires e.str in live
  {
    Matches(pattern, live[e.str]) && Present(e.hash, here)
  }

  predicate Readable(entries: seq<Entry>, live: map<Ptr, CString>) {
    forall x :: x in entries ==> x.str in live
  }

  function Hits(entries: seq<Entry>, live: map<Ptr, CString>, pattern: Bytes, here: Option<Key -> bool>): seq<Key>
    requires Readable(entries, live)
  {
    if entries == [] then []
    else
      var before, e := Hits(entries[..|entries| - 1], live, pattern, here), entries[|entries| - 1];
      if IsHit(e, live, pattern, here) then before + [e.hash] else before
  }

  predicate Increasing(hits: seq<Key>) {
    forall i, j :: 0 <= i < j < |hits| ==> hits[i] < hits[j]
  }

  /** What a search must find: each entry whose string the pattern means and which the depot, if one
      is given, holds; once, and in order of hash. */
  ghost predicate Exactly(hits: seq<Key>, view: map<Key, CString>, pattern: Bytes, here: Option<Key -> bool>) {
    && (forall k :: k in hits <==> k in view && Matches(pattern, view[k]) && Present(k, here))
    && Increasing(hits)
  }

  lemma {:induction false} HitsFound(
      entries: seq<Entry>, live: map<Ptr, CString>, pattern: Bytes, here: Option<Key -> bool>, k: Key)
    requires Readable(entries, live)
    ensures k in Hits(entries, live, pattern, here)
       <==> exists e :: e in entries && e.hash == k && IsHit(e, live, pattern, here)
  {
    if entries != [] {
      var front, last := entries[..|entries| - 1], entries[|entries| - 1];
      HitsFound(front, live, pattern, here, k);
      assert forall e :: e in entries <==> e in front || e == last;
    }
  }

  lemma {:induction false} HitsIncrease(
      entries: seq<Entry>, live: map<Ptr, CString>, pattern: Bytes, here: Option<Key -> bool>)
    requires StrictlySorted(entries) && Readable(entries, live)
    ensures var hits := Hits(entries, live, pattern, here);
      Increasing(hits) && (hits != [] ==> entries != [] && hits[|hits| - 1] <= entries[|entries| - 1].hash)
  {
    if entries != [] {
      HitsIncrease(entries[..|entries| - 1], live, pattern, here);
    }
  }

  lemma HitsAreExact(entries: seq<Entry>, live: map<Ptr, CString>, pattern: Bytes, here: Option<Key -> bool>)
    requires StrictlySorted(entries) && Distinct(entries) && Readable(entries, live)
    ensures Exactly(Hits(entries, live, pattern, here), ViewOf(entries, live), pattern, here)
  {
    HitsIncrease(entries, live, pattern, here);
    var view := ViewOf(entries, live);
    forall k
      ensures k in Hits(entries, live, pattern, here)
         <==> k in view && Matches(pattern, view[k]) && Present(k, here)
    {
      HitsFound(entries, live, pattern, here, k);
      ViewOfKeys(entries, live, k);
      forall e | e in entries && e.hash == k
        ensures k in view && view[k] == live[e.str]
      {
        ViewOfValue(entries, live, e);
      }
    }
  }

  /** The tests of the scan on one entry. */
  method Test(d: Dictionary, e: Entry, pattern: CString, here: Option<Key -> bool>) returns (hit: bool)
    requires d.Valid() && e.str in d.strings.live
    ensures hit == IsHit(e, d.strings.live, pattern, here)
  {
    var text := d.strings.Read(e.str);
    var matched, turns := GlobMatch(pattern, text);
    hit := matched && (here.None? || here.value(e.hash));
  }

  /** The scan loop. */
  method Collect(d: Dictionary, pattern: CString, here: Option<Key -> bool>) returns (hits: seq<Key>)
    requires d.Valid()
    requires Readable(d.sorted, d.strings.live)
    ensures hits == Hits(d.sorted, d.strings.live, pattern, here)
  {
    hits := [];
    for i := 0 to |d.sorted|
      invariant hits == Hits(d.sorted[..i], d.strings.live, pattern, here)
    {
      assert d.sorted[..i + 1][..i] == d.sorted[..i];
      assert d.sorted[i] in d.sorted;
      var hit := Test(d, d.sorted[i], pattern, here);
      if hit {
        hits := hits + [d.sorted[i].hash];
      }
    }
    assert d.sorted[..|d.sorted|] == d.sorted;
  }

  method Scan(d: Dictionary, pattern: CString, here: Option<Key -> bool>) returns (hits: seq<Key>)
    requires d.Valid() && d.pending == []
    ensures Exactly(hits, d.View(), pattern, here)
  {
    assert d.sorted + d.pending == d.sorted;
    hits := Collect(d, pattern, here);
    HitsAreExact(d.sorted, d.strings.live, pattern, here);
  }

  /** The delivery loop: every hit in order, up to and including the first at which the callback stops. */
  method Deliver(hits: seq<Key>, goesOn: nat -> bool) returns (delivered: seq<Key>)
    ensures delivered <= hits
    ensures forall i :: 0 <= i < |delivered| - 1 ==> goesOn(i)
    ensures |delivered| < |hits| ==> delivered != [] && !goesOn(|delivered| - 1)
  {
    delivered := [];
    for i := 0 to |hits|
      invariant delivered == hits[..i] && forall k :: 0 <= k < i ==> goesOn(k)
    {
      delivered := delivered + [hits[i]];
      if !goesOn(i) {
        return;
      }
    }
  }

  /** What a caller is promised: each path on file that the pattern, as typed, is to find and that the
      depot, if one is given, holds; once, and in order of hash. */
  ghost predicate Answers(hits: seq<Key>, view: map<Key, CString>, raw: CString, here: Option<Key -> bool>) {
    && (forall k :: k in hits <==> k in view && PathText.Wanted(raw, view[k]) && (here.None? || here.value(k)))
    && Increasing(hits)
  }

  lemma ExactlyAnswers(hits: seq<Key>, view: map<Key, CString>, raw: CString, here: Option<Key -> bool>)
    requires PathText.TrimNoise(raw) != [] && PathText.SearchPattern(raw).Pattern?
    requires Exactly(hits, view, PathText.SearchPattern(raw).text, here)
    ensures Answers(hits, view, raw, here)
  {
    forall k
      ensures k in hits <==> k in view && PathText.Wanted(raw, view[k]) && Present(k, here)
    {
      if k in view {
        PathText.SearchFindsWanted(raw, view[k]);
      }
    }
  }

  /** The scan with the pattern made of what was typed. */
  method ScanFor(d: Dictionary, raw: CString, pattern: Bytes, here: Option<Key -> bool>) returns (hits: seq<Key>)
    requires d.Valid() && d.pending == [] && PathText.TrimNoise(raw) != []
    requires PathText.SearchPattern(raw) == PathText.Pattern(pattern)
    ensures Answers(hits, d.View(), raw, here)
  {
    PatternNulFree(raw);
    hits := Scan(d, pattern, here);
    ExactlyAnswers(hits, d.View(), raw, here);
  }

  /** After a merge the map is empty exactly when the sorted run is. */
  lemma EmptyRun(sorted: seq<Entry>, pending: seq<Entry>, live: map<Ptr, CString>)
    requires pending == [] && StrictlySorted(sorted) && Distinct(sorted + pending) && Readable(sorted + pending, live)
    ensures ViewOf(sorted + pending, live) == map[] <==> |sorted| == 0
  {
    assert sorted + pending == sorted;
    ViewOfSize(sorted, live);
  }

  /** The whole search. It answers with every path wanted, whatever was added last; an empty
      dictionary is told apart from no match, and nothing but noise is refused. */
  method PathsFind(d: Dictionary, raw: CString, here: Option<Key -> bool>, goesOn: nat -> bool)
    returns (r: Outcome, ghost hits: seq<Key>)
    requires d.Valid()
    modifies d
    ensures d.Valid() && d.View() == old(d.View())
    ensures r == InvalidPattern <==> PathText.TrimNoise(raw) == []
    ensures r == NoDictionary <==> PathText.TrimNoise(raw) != [] && d.View() == map[]
    ensures r.Found? ==>
      && Answers(hits, d.View(), raw, here)
      && r.total == |hits| && r.delivered <= hits
      && ((forall k: nat :: goesOn(k)) ==> r.delivered == hits)
  {
    hits := [];
    var pattern := PathText.SearchPattern(raw);
    PathText.RefusedIffNoise(raw, []);
    if pattern.EmptyPattern? {
      return InvalidPattern, [];
    }
    d.MergePending();
    EmptyRun(d.sorted, d.pending, d.strings.live);
    if |d.sorted| == 0 {
      return NoDictionary, [];
    }
    var found := ScanFor(d, raw, pattern.text, here);
    var delivered := Deliver(found, goesOn);
    return Found(|found|, delivered), found;
  }

  // ---------------------------------------------------------------- searching for one path

  lemma Members(hits: seq<Key>)
    ensures |hits| > 0 ==> hits[0] in hits
    ensures |hits| > 1 ==> hits[1] in hits
  {
  }

  lemma OnlyHit(hits: seq<Key>, k: Key)
    requires Increasing(hits) && forall h :: h in hits <==> h == k
    ensures hits == [k]
  {
    assert k in hits;
    Members(hits);
  }

  /** A wildcard-free path on file is the only hit of a search for any of its spellings: letter case,
      kinds and runs of separators, and trailing noise make no difference. */
  lemma SpelledPathIsOnlyHit(hits: seq<Key>, view: map<Key, CString>, raw: CString, here: Option<Key -> bool>,
                             k: Key, hash: Bytes -> Key)
    requires Answers(hits, view, raw, here)
    requires forall h :: h in view ==> hash(view[h]) == h
    requires k in view && view[k] == PathText.Sanitize(PathText.TrimNoise(raw))
    requires Literal(view[k]) && PathText.TrimNoise(raw) != [] && !PathText.EndsInSeparator(PathText.TrimNoise(raw))
    ensures hits == if Present(k, here) then [k] else []
  {
    forall h
      ensures h in hits <==> h == k && Present(k, here)
    {
      if h in view {
        LiteralFindsItself(view[k], view[h]);
      }
    }
    if Present(k, here) {
      OnlyHit(hits, k);
    } else {
      Members(hits);
    }
  }
}
