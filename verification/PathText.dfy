/** Depot path normalisation (src/archive.cpp) and the search pattern built from it (src/paths.cpp). */
module PathText {
  import opened Bytes
  import opened Glob

  const SLASH: byte := 47
  const SPACE: byte := 32
  const TAB: byte := 9
  const NEWLINE: byte := 10
  const RETURN: byte := 13
  const QUOTE: byte := 39
  const DOUBLE_QUOTE: byte := 34

  predicate IsSeparator(c: byte) {
    c == SLASH || c == BACKSLASH
  }

  predicate IsTrim(c: byte) {
    c == QUOTE || c == DOUBLE_QUOTE || IsSeparator(c) || c == SPACE || c == NEWLINE || c == RETURN
  }

  function Lower(c: byte): byte {
    if 65 <= c <= 90 then c + 32 else c
  }

  // ---------------------------------------------------------------- specification

  function TrimStart(s: Bytes): Bytes {
    if s != [] && IsTrim(s[0]) then TrimStart(s[1..]) else s
  }

  function TrimEnd(s: Bytes): Bytes {
    if s != [] && IsTrim(s[|s| - 1]) then TrimEnd(s[..|s| - 1]) else s
  }

  /** One character of the source's copying loop. */
  function Push(out: Bytes, c: byte): Bytes {
    if IsSeparator(c) then
      if out == [] || out[|out| - 1] == BACKSLASH then out else out + [BACKSLASH]
    else out + [Lower(c)]
  }

  function PushAll(s: Bytes): Bytes {
    if s == [] then [] else Push(PushAll(s[..|s| - 1]), s[|s| - 1])
  }

  function Sanitize(path: Bytes): Bytes {
    PushAll(TrimEnd(TrimStart(path)))
  }

  /** The normal form: lower case, single backslashes, nothing to trim at either end. */
  predicate Canonical(s: Bytes) {
    && (s != [] ==> !IsTrim(s[0]) && !IsTrim(s[|s| - 1]))
    && (forall i :: 0 <= i < |s| ==> s[i] != SLASH && Lower(s[i]) == s[i])
    && (forall i :: 0 <= i < |s| - 1 ==> !(s[i] == BACKSLASH && s[i + 1] == BACKSLASH))
  }

  // ---------------------------------------------------------------- the loops

  lemma {:induction false} TrimStartDrops(s: Bytes, b: nat)
    requires b <= |s| && forall i :: 0 <= i < b ==> IsTrim(s[i])
    requires b < |s| ==> !IsTrim(s[b])
    ensures TrimStart(s) == s[b..]
    decreases b
  {
    if b > 0 {
      TrimStartDrops(s[1..], b - 1);
      assert s[1..][b - 1..] == s[b..];
    }
  }

  lemma {:induction false} TrimEndDrops(s: Bytes, e: nat)
    requires e <= |s| && forall i :: e <= i < |s| ==> IsTrim(s[i])
    requires e > 0 ==> !IsTrim(s[e - 1])
    ensures TrimEnd(s) == s[..e]
    decreases |s| - e
  {
    if e < |s| {
      TrimEndDrops(s[..|s| - 1], e);
      assert s[..|s| - 1][..e] == s[..e];
    } else {
      assert s[..e] == s;
    }
  }

  /** The two trimming cursors of sanitize_path. */
  method TrimCursors(path: Bytes) returns (b: nat, e: nat)
    ensures b <= e <= |path| && path[b..e] == TrimEnd(TrimStart(path))
  {
    b, e := 0, |path|;
    while b < e && IsTrim(path[b])
      invariant b <= e == |path|
      invariant forall i :: 0 <= i < b ==> IsTrim(path[i])
    {
      b := b + 1;
    }
    TrimStartDrops(path, b);
    ghost var started := path[b..];
    while e > b && IsTrim(path[e - 1])
      invariant b <= e <= |path|
      invariant forall i :: e - b <= i < |started| ==> IsTrim(started[i])
    {
      e := e - 1;
    }
    TrimEndDrops(started, e - b);
    assert path[b..e] == started[..e - b];
  }

  /** The copying loop of sanitize_path. */
  method CopyRange(path: Bytes, b: nat, e: nat) returns (out: Bytes)
    requires b <= e <= |path|
    ensures out == PushAll(path[b..e])
  {
    out := [];
    ghost var done: Bytes := [];
    for i := b to e
      invariant done == path[b..i] && out == PushAll(done)
    {
      var c := path[i];
      assert (done + [c])[..|done|] == done;
      done := done + [c];
      if IsSeparator(c) {
        if !(out == [] || out[|out| - 1] == BACKSLASH) {
          out := out + [BACKSLASH];
        }
      } else {
        out := out + [Lower(c)];
      }
    }
  }

  method SanitizePath(path: Bytes) returns (out: Bytes)
    ensures out == Sanitize(path)
  {
    if |path| == 0 {
      return [];
    }
    var b, e := TrimCursors(path);
    out := CopyRange(path, b, e);
  }

  // ---------------------------------------------------------------- normal forms

  lemma {:induction false} TrimStartClean(s: Bytes)
    ensures TrimStart(s) != [] ==> !IsTrim(TrimStart(s)[0])
  {
    if s != [] && IsTrim(s[0]) {
      TrimStartClean(s[1..]);
    }
  }

  lemma {:induction false} TrimEndClean(s: Bytes)
    ensures TrimEnd(s) <= s
    ensures TrimEnd(s) != [] ==> !IsTrim(TrimEnd(s)[|TrimEnd(s)| - 1])
  {
    if s != [] && IsTrim(s[|s| - 1]) {
      TrimEndClean(s[..|s| - 1]);
    }
  }

  /** What copying guarantees of its output: all of the normal form but the last character. */
  lemma {:induction false} PushAllShape(s: Bytes)
    requires s != [] ==> !IsTrim(s[0])
    ensures s != [] ==> PushAll(s) != [] && PushAll(s)[0] == Lower(s[0])
    ensures forall i :: 0 <= i < |PushAll(s)| ==> PushAll(s)[i] != SLASH && Lower(PushAll(s)[i]) == PushAll(s)[i]
    ensures forall i :: 0 <= i < |PushAll(s)| - 1 ==>
      !(PushAll(s)[i] == BACKSLASH && PushAll(s)[i + 1] == BACKSLASH)
    ensures s != [] && !IsSeparator(s[|s| - 1]) ==> PushAll(s)[|PushAll(s)| - 1] == Lower(s[|s| - 1])
  {
    if s != [] {
      PushAllShape(s[..|s| - 1]);
      if |s| == 1 {
        assert PushAll(s[..0]) == [];
      }
    }
  }

  lemma SanitizeIsCanonical(path: Bytes)
    ensures Canonical(Sanitize(path))
  {
    var started := TrimStart(path);
    TrimStartClean(path);
    TrimEndClean(started);
    PushAllShape(TrimEnd(started));
  }

  lemma {:induction false} PushAllFixed(s: Bytes)
    requires s != [] ==> !IsTrim(s[0])
    requires forall i :: 0 <= i < |s| ==> s[i] != SLASH && Lower(s[i]) == s[i]
    requires forall i :: 0 <= i < |s| - 1 ==> !(s[i] == BACKSLASH && s[i + 1] == BACKSLASH)
    ensures PushAll(s) == s
  {
    if s != [] {
      PushAllFixed(s[..|s| - 1]);
      assert s == s[..|s| - 1] + [s[|s| - 1]];
    }
  }

  /** A path is left alone exactly when it is in normal form. */
  lemma FixedIffCanonical(path: Bytes)
    ensures Sanitize(path) == path <==> Canonical(path)
  {
    if Canonical(path) {
      PushAllFixed(path);
    }
    SanitizeIsCanonical(path);
  }

  /** Sanitizing twice changes nothing, so a path interned in its sanitized form hashes back to the
      key it was filed under, whatever the hash. */
  lemma SanitizeIdempotent<K>(path: Bytes, hash: Bytes -> K)
    ensures Sanitize(Sanitize(path)) == Sanitize(path)
    ensures hash(Sanitize(Sanitize(path))) == hash(Sanitize(path))
  {
    SanitizeIsCanonical(path);
    FixedIffCanonical(Sanitize(path));
  }

  predicate Alike(c: byte, d: byte) {
    Lower(c) == Lower(d) || (IsSeparator(c) && IsSeparator(d))
  }

  predicate AllAlike(s: Bytes, t: Bytes) {
    |s| == |t| && forall i :: 0 <= i < |s| ==> Alike(s[i], t[i])
  }

  lemma {:induction false} TrimAlike(s: Bytes, t: Bytes)
    requires AllAlike(s, t)
    ensures AllAlike(TrimStart(s), TrimStart(t)) && AllAlike(TrimEnd(s), TrimEnd(t))
  {
    if s != [] {
      TrimAlike(s[1..], t[1..]);
      TrimAlike(s[..|s| - 1], t[..|t| - 1]);
    }
  }

  lemma {:induction false} PushAllAlike(s: Bytes, t: Bytes)
    requires AllAlike(s, t)
    ensures PushAll(s) == PushAll(t)
  {
    if s != [] {
      PushAllAlike(s[..|s| - 1], t[..|t| - 1]);
    }
  }

  /** Letter case and the kind of slash never matter. */
  lemma SpellingsAgree(s: Bytes, t: Bytes)
    requires AllAlike(s, t)
    ensures Sanitize(s) == Sanitize(t)
  {
    TrimAlike(s, t);
    TrimAlike(TrimStart(s), TrimStart(t));
    PushAllAlike(TrimEnd(TrimStart(s)), TrimEnd(TrimStart(t)));
  }

  // ---------------------------------------------------------------- what copying means

  predicate AllSeparators(s: Bytes) {
    forall i :: 0 <= i < |s| ==> IsSeparator(s[i])
  }

  /** A component is kept character by character; the letters A to Z become small ones. */
  lemma {:induction false} ComponentKept(s: Bytes)
    requires forall i :: 0 <= i < |s| ==> s[i] != 47 && s[i] != 92
    ensures |PushAll(s)| == |s|
    ensures forall i :: 0 <= i < |s| ==> PushAll(s)[i] == if 65 <= s[i] <= 90 then s[i] + 32 else s[i]
  {
    if s != [] {
      ComponentKept(s[..|s| - 1]);
    }
  }

  /** Any run of separators, of either kind, is copied as one backslash. */
  lemma {:induction false} RunCollapses(p: Bytes, run: Bytes)
    requires p != [] && !IsSeparator(p[|p| - 1]) && run != [] && AllSeparators(run)
    ensures PushAll(p + run) == PushAll(p) + [BACKSLASH]
    decreases |run|
  {
    var front := run[..|run| - 1];
    assert (p + run)[..|p + run| - 1] == p + front;
    if front == [] {
      assert p + front == p;
      LastPushed(p);
    } else {
      RunCollapses(p, front);
    }
  }

  lemma LastPushed(p: Bytes)
    requires p != [] && !IsSeparator(p[|p| - 1])
    ensures PushAll(p) != [] && PushAll(p)[|PushAll(p)| - 1] == Lower(p[|p| - 1]) != BACKSLASH
  {
  }

  lemma {:induction false} PushAfter(y: Bytes, q: Bytes)
    requires q != [] && !IsSeparator(q[0])
    ensures PushAll(y + q) == PushAll(y) + PushAll(q) && PushAll(q) != []
    decreases |q|
  {
    var front := q[..|q| - 1];
    assert (y + q)[..|y + q| - 1] == y + front;
    if front == [] {
      assert y + front == y;
    } else {
      PushAfter(y, front);
    }
  }

  /** Two parts of a path with a run of separators between them are copied each for itself, with one
      backslash between. With ComponentKept this says of every path what its normal form is. */
  lemma SanitizeJoins(path: Bytes, p: Bytes, run: Bytes, q: Bytes)
    requires TrimEnd(TrimStart(path)) == p + run + q
    requires p != [] && !IsSeparator(p[|p| - 1]) && run != [] && AllSeparators(run) && q != [] && !IsSeparator(q[0])
    ensures Sanitize(path) == PushAll(p) + [BACKSLASH] + PushAll(q)
  {
    RunCollapses(p, run);
    PushAfter(p + run, q);
  }

  // ---------------------------------------------------------------- search patterns

  predicate IsNoise(c: byte) {
    c == SPACE || c == TAB || c == NEWLINE || c == RETURN || c == DOUBLE_QUOTE || c == QUOTE
  }

  datatype Pattern = EmptyPattern | Pattern(text: Bytes)

  function TrimNoise(s: Bytes): Bytes {
    if s != [] && IsNoise(s[|s| - 1]) then TrimNoise(s[..|s| - 1]) else s
  }

  /** The pattern paths_find searches with: noise first, then the separator test, then sanitize. */
  function SearchPattern(raw: Bytes): Pattern {
    var trimmed := TrimNoise(raw);
    var endsInSeparator := trimmed != [] && IsSeparator(trimmed[|trimmed| - 1]);
    var pat := Sanitize(trimmed);
    if pat == [] then (if endsInSeparator then Pattern([STAR]) else EmptyPattern)
    else if endsInSeparator then Pattern(pat + [BACKSLASH, STAR])
    else Pattern(pat)
  }

  lemma {:induction false} NoiseEnds(s: Bytes, noise: Bytes)
    requires s != [] && !IsNoise(s[|s| - 1]) && forall i :: 0 <= i < |noise| ==> IsNoise(noise[i])
    ensures TrimNoise(s + noise) == s
    decreases |noise|
  {
    if noise == [] {
      assert s + noise == s;
    } else {
      assert (s + noise)[..|s + noise| - 1] == s + noise[..|noise| - 1];
      NoiseEnds(s, noise[..|noise| - 1]);
    }
  }

  lemma {:induction false} TrimStartSnoc(s: Bytes, c: byte)
    requires IsTrim(c)
    ensures TrimStart(s + [c]) == if TrimStart(s) == [] then [] else TrimStart(s) + [c]
  {
    if s == [] {
      assert s + [c] == [c] && [c][1..] == [];
    } else if IsTrim(s[0]) {
      assert (s + [c])[1..] == s[1..] + [c];
      TrimStartSnoc(s[1..], c);
    }
  }

  lemma SanitizeDropsSeparator(dir: Bytes, separator: byte)
    requires IsSeparator(separator)
    ensures Sanitize(dir + [separator]) == Sanitize(dir)
  {
    TrimStartSnoc(dir, separator);
    var started := TrimStart(dir);
    if started != [] {
      assert (started + [separator])[..|started|] == started;
    }
  }

  /** "dir\" with any trailing noise searches for exactly the entries under the directory: the
      texts that extend the directory's own normal form by a separator. */
  lemma DirectorySearch(dir: Bytes, separator: byte, noise: Bytes, text: Bytes)
    requires IsSeparator(separator) && forall i :: 0 <= i < |noise| ==> IsNoise(noise[i])
    requires Literal(Sanitize(dir)) && Sanitize(dir) != []
    ensures SearchPattern(dir + [separator] + noise).Pattern?
    ensures Matches(SearchPattern(dir + [separator] + noise).text, text)
       <==> Sanitize(dir) + [BACKSLASH] <= text
  {
    NoiseEnds(dir + [separator], noise);
    SanitizeDropsSeparator(dir, separator);
    DirectoryFindsItsEntries(Sanitize(dir), text);
  }

  lemma {:induction false} TrimNoiseClean(s: Bytes)
    ensures TrimNoise(s) != [] ==> !IsNoise(TrimNoise(s)[|TrimNoise(s)| - 1])
  {
    if s != [] && IsNoise(s[|s| - 1]) {
      TrimNoiseClean(s[..|s| - 1]);
    }
  }

  lemma {:induction false} TrimStartKeepsEnd(s: Bytes)
    requires s != [] && !IsTrim(s[|s| - 1])
    ensures TrimStart(s) != [] && TrimStart(s)[|TrimStart(s)| - 1] == s[|s| - 1]
  {
    if IsTrim(s[0]) {
      TrimStartKeepsEnd(s[1..]);
    }
  }

  /** A search is refused exactly when the pattern is nothing but noise; separators alone search
      everything. */
  lemma RefusedIffNoise(raw: Bytes, text: Bytes)
    ensures SearchPattern(raw) == EmptyPattern <==> TrimNoise(raw) == []
    ensures TrimNoise(raw) != [] && Sanitize(TrimNoise(raw)) == [] ==> Matches(SearchPattern(raw).text, text)
  {
    var trimmed := TrimNoise(raw);
    TrimNoiseClean(raw);
    if trimmed != [] && !IsSeparator(trimmed[|trimmed| - 1]) {
      TrimStartKeepsEnd(trimmed);
      TrimStartClean(trimmed);
      PushAllShape(TrimStart(trimmed));
    }
    StarSwallows([], text);
    assert [STAR] + [] == [STAR] && text[|text|..] == [] && Matches([], text[|text|..]);
  }

  // ---------------------------------------------------------------- what a search means

  predicate EndsInSeparator(s: Bytes) {
    s != [] && IsSeparator(s[|s| - 1])
  }

  /** The texts a search is to find: those the normal form of the pattern matches, or, behind a
      trailing separator, those below a directory it matches; trailing noise is no part of it. */
  ghost predicate Wanted(raw: Bytes, text: Bytes) {
    var body := TrimNoise(raw);
    if EndsInSeparator(body) then Sanitize(body) == [] || Below(Sanitize(body), text)
    else Matches(Sanitize(body), text)
  }

  /** Every search that is not refused searches with a pattern for exactly the texts wanted. */
  lemma SearchFindsWanted(raw: Bytes, text: Bytes)
    requires TrimNoise(raw) != []
    ensures SearchPattern(raw).Pattern? && (Matches(SearchPattern(raw).text, text) <==> Wanted(raw, text))
  {
    RefusedIffNoise(raw, text);
    BelowDirectory(Sanitize(TrimNoise(raw)), text);
  }

  predicate AllNoise(s: Bytes) {
    forall i :: 0 <= i < |s| ==> IsNoise(s[i])
  }

  /** An ordinary pattern, wildcards included, followed by any noise. */
  lemma OrdinarySearch(body: Bytes, noise: Bytes, text: Bytes)
    requires body != [] && !IsNoise(body[|body| - 1]) && !EndsInSeparator(body) && AllNoise(noise)
    ensures SearchPattern(body + noise).Pattern?
    ensures Matches(SearchPattern(body + noise).text, text) <==> Matches(Sanitize(body), text)
  {
    NoiseEnds(body, noise);
    SearchFindsWanted(body + noise, text);
  }

  lemma {:induction false} TrimEndDropsAll(s: Bytes, tail: Bytes)
    requires forall i :: 0 <= i < |tail| ==> IsTrim(tail[i])
    ensures TrimEnd(s + tail) == TrimEnd(s)
    decreases |tail|
  {
    if tail == [] {
      assert s + tail == s;
    } else {
      assert (s + tail)[..|s + tail| - 1] == s + tail[..|tail| - 1];
      TrimEndDropsAll(s, tail[..|tail| - 1]);
    }
  }

  lemma {:induction false} TrimEndKeeps(s: Bytes, k: nat)
    requires k < |s| && !IsTrim(s[k])
    ensures |TrimEnd(s)| > k && TrimEnd(s) <= s
    decreases |s|
  {
    if k < |s| - 1 && IsTrim(s[|s| - 1]) {
      TrimEndKeeps(s[..|s| - 1], k);
    }
  }

  lemma {:induction false} TrimStartAppend(s: Bytes, tail: Bytes)
    requires TrimStart(s) != []
    ensures TrimStart(s + tail) == TrimStart(s) + tail
  {
    assert (s + tail)[1..] == s[1..] + tail;
    if IsTrim(s[0]) {
      TrimStartAppend(s[1..], tail);
    }
  }

  /** Trailing noise would vanish in the normal form anyway, tabs excepted: only for them does it
      matter that a search drops noise before it normalises. */
  lemma NoiseMattersIffTab(body: Bytes, noise: Bytes)
    requires body != [] && !IsNoise(body[|body| - 1]) && !EndsInSeparator(body) && AllNoise(noise)
    ensures Sanitize(body + noise) == Sanitize(body) <==> TAB !in noise
  {
    TrimStartKeepsEnd(body);
    TrimStartClean(body);
    TrimStartAppend(body, noise);
    var started := TrimStart(body);
    assert TrimEnd(started) == started;
    if TAB !in noise {
      TrimEndDropsAll(started, noise);
    } else {
      TabStays(started, noise);
    }
  }

  lemma TabStays(started: Bytes, noise: Bytes)
    requires started != [] && !IsTrim(started[0]) && TAB in noise && AllNoise(noise)
    requires !IsTrim(started[|started| - 1]) && started[|started| - 1] != TAB
    ensures PushAll(TrimEnd(started + noise)) != PushAll(started)
  {
    var k :| 0 <= k < |noise| && noise[k] == TAB;
    TrimEndKeeps(started + noise, |started| + k);
    TrimEndClean(started + noise);
    var kept := TrimEnd(started + noise);
    var last := kept[|kept| - 1];
    assert last == noise[|kept| - 1 - |started|] && IsNoise(last) && !IsTrim(last) && last == TAB;
    PushAllShape(kept);
    PushAllShape(started);
    assert PushAll(kept)[|PushAll(kept)| - 1] == TAB;
    assert PushAll(started)[|PushAll(started)| - 1] == Lower(started[|started| - 1]) != TAB;
  }
}
