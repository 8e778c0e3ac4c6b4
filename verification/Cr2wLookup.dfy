/** Decoding single values and resolving dotted property paths (src/cr2w.cpp). */
module Cr2wLookup {
  import opened Bytes
  import opened Cr2wTypes
  import opened Cr2wStream
  import opened Options

  datatype Kind =
    | KRaw | KBool | KInt | KUint | KFloat | KName | KString | KStruct | KArray | KBuffer | KHandle

  /** A decoded value: its kind, its type name, where its bytes lie, and its number where the kind
      has one: a truth value, an integer, a name or buffer or chunk index, an element count. */
  datatype Value = Value(kind: Kind, t: string, lo: nat, hi: nat, num: int)

  datatype Status = Invalid | NotFound

  datatype Result = Ok(value: Value) | Err(status: Status)

  /** A parsed document: its bytes and its name table. */
  datatype File = File(buf: Bytes, names: seq<string>)

  function Name(f: File, i: nat): string {
    if i < |f.names| then f.names[i] else ""
  }

  function Signed(v: nat, bound: nat): int {
    if v < bound / 2 then v else v - bound
  }

  function LowerChar(c: char): char {
    if 'A' <= c <= 'Z' then c + ' ' else c
  }

  predicate SameIgnoringCase(a: string, b: string) {
    |a| == |b| && forall i :: 0 <= i < |a| ==> LowerChar(a[i]) == LowerChar(b[i])
  }

  /** How the types that cr2w_decode knows by name are read, numbers with their width in bytes. */
  datatype Family =
    | Truths
    | Wholes(width: nat)
    | Naturals(width: nat)
    | Reals(width: nat)
    | Names
    | Texts
    | DeferredBuffers
    | DataBuffers
    | Handles
    | References
    | Arrays
    | Others

  function FamilyOf(t: string): (r: Family)
    ensures r.Wholes? || r.Naturals? || r.Reals? ==> r.width > 0
  {
    if t == "Bool" then Truths
    else if t == "Int8" then Wholes(1)
    else if t == "Uint8" then Naturals(1)
    else if t == "Int16" then Wholes(2)
    else if t == "Uint16" then Naturals(2)
    else if t == "Int32" then Wholes(4)
    else if t == "Uint32" then Naturals(4)
    else if t == "Int64" then Wholes(8)
    else if t == "Uint64" || t == "TweakDBID" then Naturals(8)
    else if t == "Float" then Reals(4)
    else if t == "Double" then Reals(8)
    else if t == "CName" then Names
    else if IsStringType(t) then Texts
    else if SameIgnoringCase(t, "SerializationDeferredDataBuffer") then DeferredBuffers
    else if t == "DataBuffer" then DataBuffers
    else if StartsWith(t, "handle:") || StartsWith(t, "whandle:") then Handles
    else if StartsWith(t, "rRef:") || StartsWith(t, "raRef:") then References
    else if IsArrayType(t) then Arrays
    else Others
  }

  /** A value of a type that is not known, or too short for its type: two bytes are a name index, a
      leading zero starts a struct. */
  function Guessed(buf: Bytes, raw: Value): (v: Value)
    requires raw.lo <= raw.hi <= |buf|
    ensures v.t == raw.t && v.lo == raw.lo && v.hi == raw.hi
  {
    if raw.hi - raw.lo == 2 then raw.(kind := KName, num := Rd16(buf, raw.lo))
    else if raw.hi - raw.lo >= 3 && buf[raw.lo] == 0 then raw.(kind := KStruct)
    else raw
  }

  /** cr2w_decode: the kind a type name and a size give a value. */
  function Decode(f: File, t: string, lo: nat, hi: nat): (v: Value)
    requires lo <= hi <= |f.buf|
    ensures v.t == t && v.lo == lo && v.hi == hi
  {
    DecodeAs(f.buf, FamilyOf(t), Value(KRaw, t, lo, hi, 0))
  }

  function DecodeAs(b: Bytes, family: Family, raw: Value): (v: Value)
    requires raw.lo <= raw.hi <= |b|
    ensures v.t == raw.t && v.lo == raw.lo && v.hi == raw.hi
  {
    var lo, size := raw.lo, raw.hi - raw.lo;
    match family
    case Truths => if size < 1 then Guessed(b, raw) else raw.(kind := KBool, num := if b[lo] != 0 then 1 else 0)
    case Wholes(w) =>
      if size < w then Guessed(b, raw) else raw.(kind := KInt, num := Signed(Rd(b[lo..lo + w]), Bound(w)))
    case Naturals(w) => if size < w then Guessed(b, raw) else raw.(kind := KUint, num := Rd(b[lo..lo + w]))
    case Reals(w) => if size < w then Guessed(b, raw) else raw.(kind := KFloat)
    case Names => if size < 2 then Guessed(b, raw) else raw.(kind := KName, num := Rd16(b, lo))
    case Texts => raw.(kind := KString)
    case DeferredBuffers =>
      if size < 2 then Guessed(b, raw)
      else if Rd16(b, lo) > 0 then raw.(kind := KBuffer, num := Rd16(b, lo) - 1)
      else raw
    case DataBuffers =>
      if size < 4 then Guessed(b, raw)
      else if Rd32(b, lo) > 0x8000_0000 then raw.(kind := KBuffer, num := Rd32(b, lo) - 0x8000_0001)
      else raw
    case Handles => if size < 4 then raw else raw.(kind := KHandle, num := Signed(Rd32(b, lo), U32) - 1)
    case References => if size < 2 then raw else raw.(kind := KString)
    case Arrays => if size < 4 then raw else raw.(kind := KArray, num := Rd32(b, lo))
    case Others => Guessed(b, raw)
  }

  /** A null buffer reference never decodes to a buffer, in whatever case its type is spelled: index
      zero means none, in both encodings. */
  lemma NullDeferredBufferIsRaw(f: File, t: string, lo: nat, hi: nat)
    requires lo + 2 <= hi <= |f.buf| && SameIgnoringCase(t, "SerializationDeferredDataBuffer")
    ensures Rd16(f.buf, lo) == 0 <==> Decode(f, t, lo, hi).kind != KBuffer
  {
    assert |t| == 31;
  }

  lemma NullDataBufferIsRaw(f: File, lo: nat, hi: nat)
    requires lo + 4 <= hi <= |f.buf|
    ensures Rd32(f.buf, lo) <= 0x8000_0000 <==> Decode(f, "DataBuffer", lo, hi).kind != KBuffer
  {
    assert |"DataBuffer"| == 10;
  }

  // ---------------------------------------------------------------- one segment

  predicate SizedFor(f: File, lo: nat, hi: nat) {
    lo <= hi <= |f.buf| && hi < lo + U32
  }

  function FirstNamed(f: File, props: seq<Prop>, name: string): Option<Prop> {
    if props == [] then None
    else if Name(f, props[0].name) == name then Some(props[0])
    else FirstNamed(f, props[1..], name)
  }

  predicate Within(props: seq<Prop>, lo: nat, hi: nat) {
    forall i :: 0 <= i < |props| ==> lo <= props[i].lo <= props[i].hi <= hi
  }

  lemma {:induction false} WalkWithin(buf: Bytes, p: nat, end: nat)
    requires p <= end <= |buf| && end < p + U32
    ensures Within(WalkProps(buf, p, end).list, p, end)
    decreases end - p
  {
    AdvanceNeverWraps(buf, p, end);
    match NextProp(buf, p, end)
    case None =>
    case Some((prop, next)) => WalkWithin(buf, next, end);
  }

  /** The property of that name in a struct body, decoded. */
  function Descend(f: File, lo: nat, hi: nat, name: string): (v: Option<Value>)
    requires SizedFor(f, lo, hi)
    ensures v.Some? ==> lo <= v.value.lo <= v.value.hi <= hi
  {
    var props := BodyProps(f.buf, lo, hi).list;
    if lo < hi then WalkWithin(f.buf, lo + 1, hi); FirstNamedWithin(f, props, name, lo, hi); DescendIn(f, props, name)
    else None
  }

  function DescendIn(f: File, props: seq<Prop>, name: string): Option<Value>
    requires forall i :: 0 <= i < |props| ==> props[i].lo <= props[i].hi <= |f.buf|
  {
    FirstNamedMember(f, props, name);
    match FirstNamed(f, props, name)
    case None => None
    case Some(prop) => Some(Decode(f, Name(f, prop.kind), prop.lo, prop.hi))
  }

  lemma {:induction false} FirstNamedMember(f: File, props: seq<Prop>, name: string)
    ensures FirstNamed(f, props, name).Some? ==>
      FirstNamed(f, props, name).value in props && Name(f, FirstNamed(f, props, name).value.name) == name
    ensures FirstNamed(f, props, name).None? ==> forall prop :: prop in props ==> Name(f, prop.name) != name
  {
    if props != [] {
      FirstNamedMember(f, props[1..], name);
      assert forall prop :: prop in props <==> prop == props[0] || prop in props[1..];
    }
  }

  lemma FirstNamedWithin(f: File, props: seq<Prop>, name: string, lo: nat, hi: nat)
    requires Within(props, lo, hi)
    ensures FirstNamed(f, props, name).Some? ==>
      lo <= FirstNamed(f, props, name).value.lo <= FirstNamed(f, props, name).value.hi <= hi
  {
    FirstNamedMember(f, props, name);
  }

  /** descend: the PropWalker loop. */
  method DescendLoop(f: File, lo: nat, hi: nat, name: string) returns (v: Option<Value>)
    requires SizedFor(f, lo, hi)
    ensures v == Descend(f, lo, hi, name)
  {
    if lo >= hi {
      return None;
    }
    var p := lo + 1;
    while true
      invariant lo < p <= hi
      invariant FirstNamed(f, BodyProps(f.buf, lo, hi).list, name) == FirstNamed(f, WalkProps(f.buf, p, hi).list, name)
      decreases hi - p
    {
      AdvanceNeverWraps(f.buf, p, hi);
      var step := NextProp(f.buf, p, hi);
      if step == None {
        return None;
      }
      var prop, next := step.value.0, step.value.1;
      var whole := WalkProps(f.buf, p, hi).list;
      assert whole == [prop] + WalkProps(f.buf, next, hi).list;
      if Name(f, prop.name) == name {
        return Some(Decode(f, Name(f, prop.kind), prop.lo, prop.hi));
      }
      assert whole[1..] == WalkProps(f.buf, next, hi).list;
      p := next;
    }
  }

  // ---------------------------------------------------------------- dotted paths

  function Resolve(f: File, lo: nat, hi: nat, path: string): Result
    requires SizedFor(f, lo, hi)
    decreases |path|
  {
    if path == "" then Err(Invalid)
    else
      var dot := Index(path, '.');
      if dot == 0 then Err(Invalid)
      else
        match Descend(f, lo, hi, path[..dot])
        case None => Err(NotFound)
        case Some(v) =>
          if dot == |path| then Ok(v)
          else if v.kind != KStruct then Err(NotFound)
          else Resolve(f, v.lo, v.hi, path[dot + 1..])
  }

  /** cr2w_get_in. */
  function GetIn(f: File, parent: Value, path: string): Result
    requires SizedFor(f, parent.lo, parent.hi)
  {
    if parent.kind != KStruct then Err(Invalid)
    else if path == "" then Ok(parent)
    else Resolve(f, parent.lo, parent.hi, path)
  }

  /** cr2w_get_in: the loop over segments. */
  method GetInLoop(f: File, parent: Value, path: string) returns (r: Result)
    requires SizedFor(f, parent.lo, parent.hi)
    ensures r == GetIn(f, parent, path)
  {
    if parent.kind != KStruct {
      return Err(Invalid);
    }
    if path == "" {
      return Ok(parent);
    }
    var body, end, p := parent.lo, parent.hi, path;
    while p != ""
      invariant SizedFor(f, body, end)
      invariant Resolve(f, parent.lo, parent.hi, path) == Resolve(f, body, end, p)
      decreases |p|
    {
      var dot := Index(p, '.');
      if dot == 0 {
        return Err(Invalid);
      }
      var out := DescendLoop(f, body, end, p[..dot]);
      if out == None {
        return Err(NotFound);
      }
      if dot == |p| {
        return Ok(out.value);
      }
      if out.value.kind != KStruct {
        return Err(NotFound);
      }
      body, end, p := out.value.lo, out.value.hi, p[dot + 1..];
    }
    return Err(Invalid);
  }

  lemma {:induction false} IndexOf(s: string, c: char, rest: string)
    ensures Index(s + [c] + rest, c) == Index(s, c)
  {
    if s == "" {
      assert s + [c] + rest == [c] + rest;
    } else {
      assert (s + [c] + rest)[1..] == s[1..] + [c] + rest;
      IndexOf(s[1..], c, rest);
    }
  }

  /** Every value found lies inside the struct it was found in. */
  lemma {:induction false} ResolveWithin(f: File, lo: nat, hi: nat, path: string)
    requires SizedFor(f, lo, hi)
    ensures Resolve(f, lo, hi, path).Ok? ==>
      lo <= Resolve(f, lo, hi, path).value.lo <= Resolve(f, lo, hi, path).value.hi <= hi
    decreases |path|
  {
    if path != "" && Index(path, '.') > 0 {
      var dot := Index(path, '.');
      match Descend(f, lo, hi, path[..dot])
      case None =>
      case Some(v) =>
        if dot < |path| && v.kind == KStruct {
          ResolveWithin(f, v.lo, v.hi, path[dot + 1..]);
        }
    }
  }

  /** One segment, then the rest. */
  lemma ResolveHead(f: File, lo: nat, hi: nat, segment: string, rest: string)
    requires SizedFor(f, lo, hi) && segment != "" && '.' !in segment
    ensures Resolve(f, lo, hi, segment + "." + rest) ==
      match Descend(f, lo, hi, segment)
      case None => Err(NotFound)
      case Some(v) => if v.kind != KStruct then Err(NotFound) else Resolve(f, v.lo, v.hi, rest)
  {
    var path, dot := segment + "." + rest, Index(segment, '.');
    IndexOf(segment, '.', rest);
    assert path == segment + ['.'] + rest;
    assert dot == |segment|;
    assert path[..dot] == segment && path[dot + 1..] == rest;
  }

  lemma Joined(a: string, b: string, q: string)
    ensures a + "." + b + "." + q == a + "." + (b + "." + q)
  {
  }

  lemma AtDot(p: string, dot: nat)
    requires dot < |p| && p[dot] == '.'
    ensures p == p[..dot] + "." + p[dot + 1..]
  {
    assert "." == [p[dot]];
  }

  /** A path with a dot inside is its first segment, the dot and the rest, also in front of more. */
  lemma FirstDot(p: string, q: string, dot: nat)
    requires dot == Index(p, '.') && 0 < dot < |p|
    ensures p[..dot] != "" && '.' !in p[..dot]
    ensures p == p[..dot] + "." + p[dot + 1..] && p + "." + q == p[..dot] + "." + (p[dot + 1..] + "." + q)
  {
    AtDot(p, dot);
    Joined(p[..dot], p[dot + 1..], q);
  }

  /** What a dotted path resolves to, by what its first part resolves to. */
  function ResolveInside(f: File, r: Result, q: string): Result
    requires r.Ok? ==> SizedFor(f, r.value.lo, r.value.hi)
  {
    match r
    case Ok(v) => if v.kind != KStruct then Err(NotFound) else Resolve(f, v.lo, v.hi, q)
    case Err(e) => Err(e)
  }

  lemma {:induction false} ResolveComposes(f: File, lo: nat, hi: nat, p: string, q: string)
    requires SizedFor(f, lo, hi) && p != "" && q != ""
    ensures Resolve(f, lo, hi, p).Ok? ==> SizedFor(f, Resolve(f, lo, hi, p).value.lo, Resolve(f, lo, hi, p).value.hi)
    ensures Resolve(f, lo, hi, p + "." + q) == ResolveInside(f, Resolve(f, lo, hi, p), q)
    decreases |p|
  {
    var dot := Index(p, '.');
    ResolveWithin(f, lo, hi, p);
    if dot == 0 {
      assert (p + "." + q)[0] == '.';
    } else if dot == |p| {
      assert p[..dot] == p;
      ResolveHead(f, lo, hi, p, q);
    } else {
      var segment, rest := p[..dot], p[dot + 1..];
      FirstDot(p, q, dot);
      ResolveHead(f, lo, hi, segment, rest);
      ResolveHead(f, lo, hi, segment, rest + "." + q);
      var v := Descend(f, lo, hi, segment);
      if v.Some? && v.value.kind == KStruct && rest != "" {
        ResolveComposes(f, v.value.lo, v.value.hi, rest, q);
      }
    }
  }

  /** Resolving "p.q" is resolving q inside what p resolves to: with the same value, and with the
      same error, except that a p that is found and is no struct counts as not found. */
  lemma PathsCompose(f: File, parent: Value, p: string, q: string)
    requires SizedFor(f, parent.lo, parent.hi) && p != "" && q != ""
    ensures GetIn(f, parent, p).Ok? ==> SizedFor(f, GetIn(f, parent, p).value.lo, GetIn(f, parent, p).value.hi)
    ensures GetIn(f, parent, p + "." + q) ==
      match GetIn(f, parent, p)
      case Ok(v) => if v.kind != KStruct then Err(NotFound) else GetIn(f, v, q)
      case Err(e) => Err(e)
  {
    if parent.kind == KStruct {
      ResolveComposes(f, parent.lo, parent.hi, p, q);
    }
  }
}
