/** RED type names as src/cr2w.cpp reads them. */
module Cr2wTypes {

  function Index(s: string, c: char): (i: nat)
    ensures i <= |s|
    ensures forall k :: 0 <= k < i ==> s[k] != c
    ensures i < |s| ==> s[i] == c
  {
    if s == "" || s[0] == c then 0 else 1 + Index(s[1..], c)
  }

  predicate StartsWith(s: string, prefix: string) {
    prefix <= s
  }

  /** Serialized width of a fixed-size type, or 0 when the width varies. */
  function FixedWidth(t: string): (w: nat)
    ensures w <= 8
  {
    if t == "Bool" || t == "Int8" || t == "Uint8" then 1
    else if t == "Int16" || t == "Uint16" || t == "CName" then 2
    else if t == "Int32" || t == "Uint32" || t == "Float" then 4
    else if t == "Int64" || t == "Uint64" || t == "Double" || t == "TweakDBID" then 8
    else if StartsWith(t, "handle:") || StartsWith(t, "whandle:") then 4
    else if StartsWith(t, "rRef:") || StartsWith(t, "raRef:") then 2
    else 0
  }

  predicate IsStringType(t: string) {
    t == "CString" || t == "String" || t == "NodeRef"
  }

  predicate IsArrayType(t: string) {
    StartsWith(t, "array:") || StartsWith(t, "static:") || (t != "" && t[0] == '[')
  }

  /** The element type of "array:X", "static:N,X" or "[N]X"; any other name is returned as it is. */
  function ElementType(t: string): string {
    if StartsWith(t, "array:") then t[6..]
    else if StartsWith(t, "static:") then
      var comma := Index(t, ',');
      if comma < |t| then t[comma + 1..] else t[7..]
    else if t != "" && t[0] == '[' then
      var close := Index(t, ']');
      if close < |t| then t[close + 1..] else t
    else t
  }

  lemma FirstIs(s: string, c: char, n: nat)
    requires n < |s| && s[n] == c && forall k :: 0 <= k < n ==> s[k] != c
    ensures Index(s, c) == n
  {
  }

  lemma StaticSpelling(count: string, elem: string)
    requires ',' !in count
    ensures ElementType("static:" + count + "," + elem) == elem
  {
    var s, n := "static:" + count + "," + elem, 7 + |count|;
    assert s[n + 1..] == elem;
    forall k | 0 <= k < n ensures s[k] != ',' {
      assert s[k] == if k < 7 then "static:"[k] else count[k - 7];
    }
    FirstIs(s, ',', n);
    assert s[0] == 's' && s[..7] == "static:";
  }

  lemma BracketSpelling(count: string, elem: string)
    requires ']' !in count
    ensures ElementType("[" + count + "]" + elem) == elem
  {
    var s, n := "[" + count + "]" + elem, 1 + |count|;
    assert s[n + 1..] == elem;
    forall k | 0 <= k < n ensures s[k] != ']' {
      assert s[k] == if k < 1 then '[' else count[k - 1];
    }
    FirstIs(s, ']', n);
    assert s[0] == '[';
  }

  /** The three spellings all name arrays, and the same element type. */
  lemma SpellingsAgree(count: string, elem: string)
    requires ',' !in count && ']' !in count
    ensures IsArrayType("array:" + elem) && IsArrayType("static:" + count + "," + elem)
    ensures IsArrayType("[" + count + "]" + elem)
    ensures ElementType("array:" + elem) == elem
    ensures ElementType("static:" + count + "," + elem) == elem
    ensures ElementType("[" + count + "]" + elem) == elem
  {
    assert ("array:" + elem)[6..] == elem;
    StaticSpelling(count, elem);
    BracketSpelling(count, elem);
    assert "static:" + count + "," + elem == "static:" + (count + "," + elem);
    assert ("[" + count + "]" + elem)[0] == '[';
  }
}
