/** The bounds-checked cursor that src/paths.cpp and src/cache.cpp read their files through. */
module Cursor {
  import opened Bytes

  /** The source's bounds-checked cursor: a read either fits or clears `ok`. */
  class Reader {
    const buf: Bytes
    var p: nat
    var ok: bool

    ghost predicate Valid()
      reads this
    {
      p <= |buf|
    }

    constructor (buf: Bytes, start: nat)
      requires start <= |buf|
      ensures Valid() && this.buf == buf && p == start && ok
    {
      this.buf := buf;
      p := start;
      ok := true;
    }

    method Need(n: nat) returns (fits: bool)
      requires Valid()
      modifies this`ok
      ensures Valid() && fits == ok == (old(ok) && n <= |buf| - p)
    {
      if !ok || |buf| - p < n {
        ok := false;
      }
      fits := ok;
    }

    method U32() returns (v: nat)
      requires Valid()
      modifies this
      ensures Valid() && ok == (old(ok) && 4 <= |buf| - old(p))
      ensures ok ==> p == old(p) + 4 && v == Rd(buf[old(p)..p])
      ensures !ok ==> p == old(p) && v == 0
    {
      var fits := Need(4);
      if !fits {
        return 0;
      }
      v := Rd(buf[p..p + 4]);
      p := p + 4;
    }

    method U64() returns (v: nat)
      requires Valid()
      modifies this
      ensures Valid() && ok == (old(ok) && 8 <= |buf| - old(p))
      ensures ok ==> p == old(p) + 8 && v == Rd(buf[old(p)..p])
      ensures !ok ==> p == old(p) && v == 0
    {
      var fits := Need(8);
      if !fits {
        return 0;
      }
      v := Rd(buf[p..p + 8]);
      p := p + 8;
    }

    method Take(n: nat) returns (s: Bytes)
      requires Valid() && n <= |buf| - p
      modifies this`p
      ensures Valid() && p == old(p) + n && s == buf[old(p)..p]
    {
      s := buf[p..p + n];
      p := p + n;
    }
  }
}
