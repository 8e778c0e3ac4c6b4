/** The glob matcher of src/paths.cpp. */
module Glob {
  import opened Bytes

  const STAR: byte := 42
  const QUESTION: byte := 63
  const BACKSLASH: byte := 92

  /** The meaning of a pattern: '*' stands for any run of characters, separators included, and '?'
      for any one character; everything else stands for itself. */
  predicate Matches(pattern: Bytes, text: Bytes)
    decreases |pattern| + |text|
  {
    if pattern == [] then text == []
    else if pattern[0] == STAR then
      Matches(pattern[1..], text) || (text != [] && Matches(pattern, text[1..]))
    else
      text != [] && (pattern[0] == QUESTION || pattern[0] == text[0]) && Matches(pattern[1..], text[1..])
  }

  predicate StarFree(s: Bytes) {
    STAR !in s
  }

  /** A leading star swallows some prefix of the text. */
  lemma {:induction false} StarSwallows(rest: Bytes, text: Bytes)
    ensures Matches([STAR] + rest, text) <==> exists k: nat :: k <= |text| && Matches(rest, text[k..])
    decreases |text|
  {
    var pattern := [STAR] + rest;
    assert pattern[1..] == rest;
    assert text[0..] == text;
    if text != [] {
      StarSwallows(rest, text[1..]);
      if k: nat :| k <= |text[1..]| && Matches(rest, text[1..][k..]) {
        assert text[1..][k..] == text[k + 1..];
      }
      if k: nat :| 0 < k <= |text| && Matches(rest, text[k..]) {
        assert text[1..][k - 1..] == text[k..];
      }
    }
  }

  /** A star-free segment takes exactly its own length off the text. */
  lemma {:induction false} SegmentConsumes(segment: Bytes, rest: Bytes, text: Bytes)
    requires StarFree(segment) && Matches(segment + rest, text)
    ensures |segment| <= |text| && Matches(rest, text[|segment|..])
    decreases |segment|
  {
    if segment == [] {
      assert segment + rest == rest;
    } else {
      assert (segment + rest)[1..] == segment[1..] + rest;
      SegmentConsumes(segment[1..], rest, text[1..]);
      assert text[1..][|segment| - 1..] == text[|segment|..];
    }
  }

  /** Giving up an earlier star for a later one loses no match: what the earlier star could still
      swallow, the later one can. */
  lemma LaterStarSuffices(segment: Bytes, rest: Bytes, text: Bytes)
    requires StarFree(segment) && |segment| <= |text|
    requires Matches([STAR] + (segment + ([STAR] + rest)), text)
    ensures Matches([STAR] + rest, text[|segment|..])
  {
    var n := |segment|;
    StarSwallows(segment + ([STAR] + rest), text);
    var k: nat :| k <= |text| && Matches(segment + ([STAR] + rest), text[k..]);
    SegmentConsumes(segment, [STAR] + rest, text[k..]);
    StarSwallows(rest, text[k..][n..]);
    var m: nat :| m <= |text[k..][n..]| && Matches(rest, text[k..][n..][m..]);
    assert text[k..][n..][m..] == text[n..][k + m..];
    StarSwallows(rest, text[n..]);
  }

  /** A star followed by a segment longer than the text matches nothing. */
  lemma SegmentTooLong(segment: Bytes, rest: Bytes, text: Bytes)
    requires StarFree(segment) && |text| < |segment|
    ensures !Matches([STAR] + (segment + rest), text)
  {
    StarSwallows(segment + rest, text);
    if k: nat :| k <= |text| && Matches(segment + rest, text[k..]) {
      SegmentConsumes(segment, rest, text[k..]);
    }
  }

  /** The turns that `rows` positions of `resume` can take, `width` turns each. */
  function Turns(rows: nat, width: nat): nat {
    if rows == 0 then 0 else width + Turns(rows - 1, width)
  }

  lemma {:induction false} TurnsProduct(rows: nat, width: nat)
    ensures Turns(rows, width) == rows * width
  {
    if rows > 0 {
      TurnsProduct(rows - 1, width);
    }
  }

  /** The turns taken so far are paid for by any number of rows that `resume` has not yet passed, and
      by the place in the pattern. */
  ghost predicate PaidFor(turns: nat, resume: nat, p: nat, width: nat) {
    p < width && forall rows: nat :: resume <= rows ==> turns <= Turns(rows, width) + p
  }

  lemma ForwardPays(turns: nat, resume: nat, t: nat, p: nat, width: nat)
    requires PaidFor(turns, resume, p, width) && resume <= t && p + 1 < width
    ensures PaidFor(turns + 1, t, p + 1, width)
  {
  }

  lemma BackPays(turns: nat, resume: nat, p: nat, width: nat, back: nat)
    requires PaidFor(turns, resume, p, width) && back < width
    ensures PaidFor(turns + 1, resume + 1, back, width)
  {
    forall rows: nat | resume + 1 <= rows ensures turns + 1 <= Turns(rows, width) + back {
      assert turns <= Turns(rows - 1, width) + p;
    }
  }

  lemma FinalBound(turns: nat, resume: nat, n: nat, p: nat, width: nat)
    requires PaidFor(turns, resume, p, width) && resume <= n
    ensures turns + 1 <= width * (n + 1)
  {
    assert turns <= Turns(n, width) + p;
    TurnsProduct(n + 1, width);
  }

  /** The loop may forget the earlier star when it meets the next. */
  lemma NewStar(pattern: Bytes, text: Bytes, star: nat, p: nat, resume: nat, t: nat)
    requires star < p < |pattern| && resume <= t <= |text| && t - resume == p - (star + 1)
    requires pattern[star] == STAR && pattern[p] == STAR && StarFree(pattern[star + 1..p])
    requires Matches(pattern[star + 1..], text[resume..]) == Matches(pattern[p..], text[t..])
    ensures Matches(pattern[star..], text[resume..]) == Matches(pattern[p..], text[t..])
  {
    var segment, rest := pattern[star + 1..p], pattern[p + 1..];
    assert pattern[p..] == [STAR] + rest;
    assert pattern[star + 1..] == segment + ([STAR] + rest);
    assert pattern[star..] == [STAR] + (segment + ([STAR] + rest));
    assert pattern[star..][1..] == pattern[star + 1..];
    assert text[resume..][|segment|..] == text[t..];
    if Matches(pattern[star..], text[resume..]) {
      LaterStarSuffices(segment, rest, text[resume..]);
    }
  }

  /** With the text used up, swallowing more with the last star cannot help. */
  lemma NoLaterStart(pattern: Bytes, text: Bytes, star: nat, p: nat, resume: nat)
    requires star < p <= |pattern| && resume <= |text| && |text| - resume == p - (star + 1)
    requires pattern[star] == STAR && StarFree(pattern[star + 1..p])
    ensures Matches(pattern[star..], text[resume..]) == Matches(pattern[star + 1..], text[resume..])
  {
    var segment, rest := pattern[star + 1..p], pattern[p..];
    assert pattern[star..] == [STAR] + (segment + rest);
    assert pattern[star..][1..] == pattern[star + 1..];
    if resume < |text| {
      assert text[resume..][1..] == text[resume + 1..];
      SegmentTooLong(segment, rest, text[resume + 1..]);
    }
  }

  /** What the loop knows: where its cursors are, and that the whole question has come down to the
      text from `resume` under the last star, or from `t` when no star has been met. */
  ghost predicate Tracking(pattern: Bytes, text: Bytes, star: int, p: nat, resume: nat, t: nat) {
    && p <= |pattern| && resume <= t <= |text| && -1 <= star < p
    && (star == -1 ==> resume == 0 && Matches(pattern, text) == Matches(pattern[p..], text[t..]))
    && (star != -1 ==>
          && pattern[star] == STAR && StarFree(pattern[star + 1..p]) && t - resume == p - (star + 1)
          && Matches(pattern, text) == Matches(pattern[star..], text[resume..])
          && Matches(pattern[star + 1..], text[resume..]) == Matches(pattern[p..], text[t..]))
  }

  lemma StarStep(pattern: Bytes, text: Bytes, star: int, p: nat, resume: nat, t: nat)
    requires Tracking(pattern, text, star, p, resume, t) && p < |pattern| && pattern[p] == STAR
    ensures Tracking(pattern, text, p, p + 1, t, t)
  {
    if star != -1 {
      NewStar(pattern, text, star, p, resume, t);
    }
    assert pattern[p + 1..p + 1] == [];
  }

  lemma CharStep(pattern: Bytes, text: Bytes, star: int, p: nat, resume: nat, t: nat)
    requires Tracking(pattern, text, star, p, resume, t) && p < |pattern| && t < |text|
    requires pattern[p] != STAR && (pattern[p] == QUESTION || pattern[p] == text[t])
    ensures Tracking(pattern, text, star, p + 1, resume, t + 1)
  {
    assert pattern[p..][1..] == pattern[p + 1..] && text[t..][1..] == text[t + 1..];
    if star != -1 {
      assert pattern[star + 1..p + 1] == pattern[star + 1..p] + [pattern[p]];
    }
  }

  /** The pattern is at its end, or at a character that is neither a wildcard nor the text's. */
  predicate Mismatch(pattern: Bytes, text: Bytes, p: nat, t: nat) {
    && p <= |pattern| && t < |text|
    && (p < |pattern| ==> pattern[p] != STAR && pattern[p] != QUESTION && pattern[p] != text[t])
  }

  /** Without a star to fall back on, a mismatch settles the question. */
  lemma NoStarFails(pattern: Bytes, text: Bytes, p: nat, resume: nat, t: nat)
    requires Tracking(pattern, text, -1, p, resume, t) && Mismatch(pattern, text, p, t)
    ensures !Matches(pattern, text)
  {
  }

  lemma BackStep(pattern: Bytes, text: Bytes, star: int, p: nat, resume: nat, t: nat)
    requires Tracking(pattern, text, star, p, resume, t) && star != -1 && Mismatch(pattern, text, p, t)
    ensures Tracking(pattern, text, star, star + 1, resume + 1, resume + 1)
  {
    assert !Matches(pattern[p..], text[t..]);
    assert pattern[star..][1..] == pattern[star + 1..] && text[resume..][1..] == text[resume + 1..];
    assert pattern[star + 1..star + 1] == [];
  }

  lemma TextUsedUp(pattern: Bytes, text: Bytes, star: int, p: nat, resume: nat, t: nat)
    requires Tracking(pattern, text, star, p, resume, t) && t == |text|
    ensures Matches(pattern, text) == Matches(pattern[p..], [])
  {
    assert text[t..] == [];
    if star != -1 {
      NoLaterStart(pattern, text, star, p, resume);
    }
  }

  /** With the text used up, what is left of the pattern matches only if it is stars throughout. */
  method TrailingStars(pattern: CString, start: nat) returns (matched: bool)
    requires start <= |pattern|
    ensures matched == Matches(pattern[start..], [])
  {
    var p := start;
    while CharAt(pattern, p) == STAR
      invariant p <= |pattern| && Matches(pattern[start..], []) == Matches(pattern[p..], [])
      decreases |pattern| - p
    {
      assert pattern[p..][1..] == pattern[p + 1..];
      p := p + 1;
    }
    matched := CharAt(pattern, p) == 0;
  }

  /** Everything the loop keeps, its turns included. */
  ghost predicate Running(pattern: Bytes, text: Bytes, star: int, p: nat, resume: nat, t: nat, turns: nat) {
    Tracking(pattern, text, star, p, resume, t) && PaidFor(turns, resume, p, |pattern| + 1)
  }

  lemma StarTurn(pattern: Bytes, text: Bytes, star: int, p: nat, resume: nat, t: nat, turns: nat)
    requires Running(pattern, text, star, p, resume, t, turns) && p < |pattern| && pattern[p] == STAR
    ensures Running(pattern, text, p, p + 1, t, t, turns + 1)
  {
    StarStep(pattern, text, star, p, resume, t);
    ForwardPays(turns, resume, t, p, |pattern| + 1);
  }

  lemma CharTurn(pattern: Bytes, text: Bytes, star: int, p: nat, resume: nat, t: nat, turns: nat)
    requires Running(pattern, text, star, p, resume, t, turns) && p < |pattern| && t < |text|
    requires pattern[p] != STAR && (pattern[p] == QUESTION || pattern[p] == text[t])
    ensures Running(pattern, text, star, p + 1, resume, t + 1, turns + 1)
  {
    CharStep(pattern, text, star, p, resume, t);
    ForwardPays(turns, resume, resume, p, |pattern| + 1);
  }

  lemma BackTurn(pattern: Bytes, text: Bytes, star: int, p: nat, resume: nat, t: nat, turns: nat)
    requires Running(pattern, text, star, p, resume, t, turns) && star != -1 && Mismatch(pattern, text, p, t)
    ensures star >= 0 && Running(pattern, text, star, star + 1, resume + 1, resume + 1, turns + 1)
  {
    BackStep(pattern, text, star, p, resume, t);
    BackPays(turns, resume, p, |pattern| + 1, star + 1);
  }

  lemma LastTurn(pattern: Bytes, text: Bytes, star: int, p: nat, resume: nat, t: nat, turns: nat)
    requires Running(pattern, text, star, p, resume, t, turns)
    ensures turns + 1 <= (|pattern| + 1) * (|text| + 1)
    ensures star == -1 && Mismatch(pattern, text, p, t) ==> !Matches(pattern, text)
    ensures t == |text| ==> Matches(pattern, text) == Matches(pattern[p..], [])
  {
    FinalBound(turns, resume, |text|, p, |pattern| + 1);
    if star == -1 && Mismatch(pattern, text, p, t) {
      NoStarFails(pattern, text, p, resume, t);
    }
    if t == |text| {
      TextUsedUp(pattern, text, star, p, resume, t);
    }
  }

  lemma FirstTurn(pattern: Bytes, text: Bytes)
    ensures Running(pattern, text, -1, 0, 0, 0, 0)
  {
    assert pattern[0..] == pattern && text[0..] == text;
  }

  /** The iterative matcher agrees with the meaning on every pattern and text, and its main loop
      turns at most (|pattern|+1) * (|text|+1) times; `turns` counts them. */
  method GlobMatch(pattern: CString, text: CString) returns (matched: bool, turns: nat)
    ensures matched == Matches(pattern, text)
    ensures turns <= (|pattern| + 1) * (|text| + 1)
  {
    var p: nat, t: nat := 0, 0;
    var star: int, resume: nat := -1, 0;
    turns := 0;
    FirstTurn(pattern, text);
    while CharAt(text, t) != 0
      invariant Running(pattern, text, star, p, resume, t, turns)
      decreases |text| - resume, |pattern| - p
    {
      if CharAt(pattern, p) == STAR {
        StarTurn(pattern, text, star, p, resume, t, turns);
        star, p, resume := p, p + 1, t;
      } else if CharAt(pattern, p) == QUESTION || CharAt(pattern, p) == CharAt(text, t) {
        CharTurn(pattern, text, star, p, resume, t, turns);
        p, t := p + 1, t + 1;
      } else if star != -1 {
        BackTurn(pattern, text, star, p, resume, t, turns);
        p, resume := star + 1, resume + 1;
        t := resume;
      } else {
        LastTurn(pattern, text, star, p, resume, t, turns);
        return false, turns + 1;
      }
      turns := turns + 1;
    }
    LastTurn(pattern, text, star, p, resume, t, turns);
    matched := TrailingStars(pattern, p);
  }

  // ---------------------------------------------------------------- patterns without wildcards

  predicate Literal(s: Bytes) {
    STAR !in s && QUESTION !in s
  }

  lemma {:induction false} LiteralPrefix(literal: Bytes, rest: Bytes, text: Bytes)
    requires Literal(literal)
    ensures Matches(literal + rest, text) <==> literal <= text && Matches(rest, text[|literal|..])
  {
    if literal == [] {
      assert literal + rest == rest && text[0..] == text;
    } else {
      assert (literal + rest)[1..] == literal[1..] + rest;
      if text != [] {
        LiteralPrefix(literal[1..], rest, text[1..]);
        assert literal <= text <==> literal[0] == text[0] && literal[1..] <= text[1..];
        if literal <= text {
          assert text[1..][|literal| - 1..] == text[|literal|..];
        }
      }
    }
  }

  /** The trailing-separator shorthand: a wildcard-free directory finds exactly the entries under
      it, at any depth. */
  lemma DirectoryFindsItsEntries(directory: Bytes, text: Bytes)
    requires Literal(directory)
    ensures Matches(directory + [BACKSLASH, STAR], text) <==> directory + [BACKSLASH] <= text
  {
    var prefix := directory + [BACKSLASH];
    assert directory + [BACKSLASH, STAR] == prefix + [STAR];
    LiteralPrefix(prefix, [STAR], text);
    if prefix <= text {
      var tail := text[|prefix|..];
      StarSwallows([], tail);
      assert [STAR] + [] == [STAR] && Matches([], tail[|tail|..]);
    }
  }

  /** A pattern without wildcards finds only the entry it spells. */
  lemma LiteralFindsItself(literal: Bytes, text: Bytes)
    requires Literal(literal)
    ensures Matches(literal, text) <==> literal == text
  {
    LiteralPrefix(literal, [], text);
    assert literal + [] == literal;
    if literal <= text && text[|literal|..] == [] {
      assert text == text[..|literal|] + text[|literal|..];
    }
  }

  // ---------------------------------------------------------------- patterns end to end

  predicate SplitsAt(a: Bytes, b: Bytes, text: Bytes, j: nat) {
    j <= |text| && Matches(a, text[..j]) && Matches(b, text[j..])
  }

  /** A pattern in two parts matches exactly the texts that split into a match of each. */
  lemma {:induction false} MatchesConcat(a: Bytes, b: Bytes, text: Bytes)
    ensures Matches(a + b, text) <==> exists j: nat :: SplitsAt(a, b, text, j)
    decreases |a| + |text|
  {
    if a == [] {
      assert a + b == b && text[0..] == text && text[..0] == [];
      assert Matches(b, text) ==> SplitsAt(a, b, text, 0);
      assert forall j: nat :: SplitsAt(a, b, text, j) ==> j == 0;
    } else if a[0] == STAR {
      StarSplits(a, b, text);
    } else {
      CharSplits(a, b, text);
    }
  }

  lemma {:induction false} StarSplits(a: Bytes, b: Bytes, text: Bytes)
    requires a != [] && a[0] == STAR
    ensures Matches(a + b, text) <==> exists j: nat :: SplitsAt(a, b, text, j)
    decreases |a| + |text|, 0
  {
    assert (a + b)[1..] == a[1..] + b;
    MatchesConcat(a[1..], b, text);
    forall j: nat | SplitsAt(a[1..], b, text, j)
      ensures SplitsAt(a, b, text, j)
    {
    }
    if text != [] {
      MatchesConcat(a, b, text[1..]);
      forall j: nat | SplitsAt(a, b, text[1..], j)
        ensures SplitsAt(a, b, text, j + 1)
      {
        LongerSplit(text, j);
      }
    }
    forall j: nat | SplitsAt(a, b, text, j) && !SplitsAt(a[1..], b, text, j)
      ensures text != [] && j > 0 && SplitsAt(a, b, text[1..], j - 1)
    {
      LongerSplit(text, j - 1);
    }
  }

  lemma LongerSplit(text: Bytes, j: nat)
    requires j < |text|
    ensures text[..j + 1] != [] && text[..j + 1][0] == text[0]
    ensures text[..j + 1][1..] == text[1..][..j] && text[j + 1..] == text[1..][j..]
  {
  }

  lemma {:induction false} CharSplits(a: Bytes, b: Bytes, text: Bytes)
    requires a != [] && a[0] != STAR
    ensures Matches(a + b, text) <==> exists j: nat :: SplitsAt(a, b, text, j)
    decreases |a| + |text|, 0
  {
    assert (a + b)[1..] == a[1..] + b;
    if text != [] {
      MatchesConcat(a[1..], b, text[1..]);
      forall j: nat | SplitsAt(a[1..], b, text[1..], j)
        ensures a[0] == QUESTION || a[0] == text[0] ==> SplitsAt(a, b, text, j + 1)
      {
        LongerSplit(text, j);
      }
    }
    forall j: nat | SplitsAt(a, b, text, j)
      ensures text != [] && j > 0 && SplitsAt(a[1..], b, text[1..], j - 1)
      ensures a[0] == QUESTION || a[0] == text[0]
    {
      LongerSplit(text, j - 1);
    }
  }

  /** The text lies below a directory that the pattern matches. */
  ghost predicate Below(pattern: Bytes, text: Bytes) {
    exists j: nat :: j < |text| && text[j] == BACKSLASH && Matches(pattern, text[..j])
  }

  /** The trailing-separator shorthand for any pattern, wildcards included. */
  lemma BelowDirectory(pattern: Bytes, text: Bytes)
    ensures Matches(pattern + [BACKSLASH, STAR], text) <==> Below(pattern, text)
  {
    var tail: Bytes := [BACKSLASH, STAR];
    MatchesConcat(pattern, tail, text);
    forall j: nat | j <= |text|
      ensures Matches(tail, text[j..]) <==> j < |text| && text[j] == BACKSLASH
    {
      assert tail[1..] == [STAR] && [STAR] + [] == [STAR];
      if j < |text| {
        StarSwallows([], text[j..][1..]);
        assert text[j..][1..][|text[j..][1..]|..] == [];
      }
    }
    if j: nat :| SplitsAt(pattern, tail, text, j) {
      assert j < |text| && text[j] == BACKSLASH && Matches(pattern, text[..j]);
    }
    if j: nat :| j < |text| && text[j] == BACKSLASH && Matches(pattern, text[..j]) {
      assert SplitsAt(pattern, tail, text, j);
    }
  }
}
