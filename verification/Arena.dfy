/** The string arena of src/paths.cpp: blocks that never move and are never freed. */
module Arena {
  import opened Bytes

  const BLOCK_SIZE: nat := 0x10_0000

  /** A pointer into the arena. */
  datatype Ptr = Ptr(block: nat, offset: nat)

  /** A terminated string stands at an offset of a block. */
  predicate HoldsIn(content: Bytes, offset: nat, s: Bytes) {
    offset + |s| < |content| && content[offset..offset + |s|] == s && content[offset + |s|] == 0
  }

  predicate Written(before: Bytes, after: Bytes, offset: nat, s: Bytes) {
    && offset + |s| < |before|
    && after == before[..offset] + (s + [0]) + before[offset + |s| + 1..]
  }

  /** A write puts its string in place and keeps every string that ends before it. */
  lemma WriteKeepsEarlier(before: Bytes, after: Bytes, offset: nat, s: Bytes, at: nat, t: Bytes)
    requires Written(before, after, offset, s) && HoldsIn(before, at, t) && at + |t| < offset
    ensures HoldsIn(after, at, t)
  {
    assert after[at..at + |t|] == before[at..at + |t|];
  }

  class Arena {
    var blocks: seq<array<byte>>
    /** The block being filled, or -1 before the first. */
    var cur: int
    var used: nat
    var bytesUsed: nat
    /** Every pointer ever returned, with the string it was returned for. */
    ghost var live: map<Ptr, CString>

    ghost predicate Holds(p: Ptr, s: CString)
      reads this, blocks
    {
      && p.block < |blocks| && HoldsIn(blocks[p.block][..], p.offset, s)
      && (p.block == cur ==> p.offset + |s| < used)
    }

    ghost predicate Valid()
      reads this, blocks
    {
      && (forall i, j :: 0 <= i < j < |blocks| ==> blocks[i] != blocks[j])
      && -1 <= cur < |blocks|
      && (cur >= 0 ==> blocks[cur].Length == BLOCK_SIZE && used <= BLOCK_SIZE)
      && forall p :: p in live ==> Holds(p, live[p])
    }

    constructor ()
      ensures Valid() && live == map[] && blocks == []
    {
      blocks, cur, used, bytesUsed, live := [], -1, 0, 0, map[];
    }

    /** Copies the characters and the terminator into place. */
    static method Write(block: array<byte>, offset: nat, s: CString)
      requires offset + |s| < block.Length
      modifies block
      ensures Written(old(block[..]), block[..], offset, s)
    {
      ghost var before := block[..];
      for i := 0 to |s|
        invariant block[..] == before[..offset] + s[..i] + before[offset + i..]
      {
        block[offset + i] := s[i];
      }
      block[offset + |s|] := 0;
    }

    /** A new block; the ones already there stay where they are. */
    method Grow(size: nat) returns (index: nat)
      requires Valid()
      modifies this`blocks
      ensures Valid() && index == |old(blocks)| && |blocks| == index + 1 && blocks[..index] == old(blocks)
      ensures fresh(blocks[index]) && blocks[index].Length == size
    {
      var block := new byte[size](_ => 0);
      index := |blocks|;
      blocks := blocks + [block];
      assert forall p :: p in live ==> old(Holds(p, live[p]));
    }

    /** Writes a string behind every one its block holds; they all stay. */
    method WriteBehind(p: Ptr, s: CString)
      requires Valid() && p.block < |blocks| && p.offset + |s| < blocks[p.block].Length
      requires forall q :: q in live && q.block == p.block ==> q.offset + |live[q]| < p.offset
      modifies blocks[p.block]
      ensures HoldsIn(blocks[p.block][..], p.offset, s)
      ensures forall q :: q in live ==> Holds(q, live[q])
    {
      assert forall q :: q in live ==> Holds(q, live[q]);
      ghost var before := blocks[p.block][..];
      Write(blocks[p.block], p.offset, s);
      ghost var after := blocks[p.block][..];
      forall q | q in live
        ensures Holds(q, live[q])
      {
        if q.block == p.block {
          WriteKeepsEarlier(before, after, p.offset, s, q.offset, live[q]);
        } else {
          assert blocks[q.block] != blocks[p.block];
        }
      }
    }

    /** Writing beyond what is in use keeps every string. */
    method Place(p: Ptr, s: CString, next: nat)
      requires Valid() && p.block < |blocks| && p.offset + |s| < blocks[p.block].Length
      requires p.block == cur ==> used == p.offset && next == p.offset + |s| + 1
      requires p.block != cur ==> next == used && forall q :: q in live ==> q.block != p.block
      modifies this`used, this`bytesUsed, this`live, blocks[p.block]
      ensures Valid() && p !in old(live) && live == old(live)[p := s]
      ensures used == next && bytesUsed == old(bytesUsed) + |s| + 1
    {
      assert forall q :: q in live ==> Holds(q, live[q]) && q != p;
      WriteBehind(p, s);
      used := next;
      bytesUsed := bytesUsed + |s| + 1;
      live := live[p := s];
    }

    /** Interning returns a pointer never returned before and disturbs no string interned earlier. */
    method Intern(s: CString) returns (p: Ptr)
      requires Valid()
      modifies this, set b | b in blocks
      ensures Valid() && p !in old(live) && live == old(live)[p := s]
      ensures |old(blocks)| <= |blocks| && blocks[..|old(blocks)|] == old(blocks)
      ensures forall i :: |old(blocks)| <= i < |blocks| ==> fresh(blocks[i])
      ensures bytesUsed == old(bytesUsed) + |s| + 1
      ensures |blocks| == |old(blocks)|
        + if |s| < BLOCK_SIZE && old(cur) >= 0 && old(used) + |s| < BLOCK_SIZE then 0 else 1
    {
      var need := |s| + 1;
      if need > BLOCK_SIZE {
        var index := Grow(need);
        p := Ptr(index, 0);
        Place(p, s, used);
        return;
      }
      if cur < 0 || used + need > BLOCK_SIZE {
        var index := Grow(BLOCK_SIZE);
        cur := index;
        used := 0;
      }
      p := Ptr(cur, used);
      Place(p, s, used + need);
    }

    /** Reading through any pointer ever returned gives the string it was returned for. */
    method Read(p: Ptr) returns (s: CString)
      requires Valid() && p in live
      ensures s == live[p]
    {
      assert Holds(p, live[p]);
      var block, i := blocks[p.block], p.offset;
      ghost var text := live[p];
      s := [];
      while block[i] != 0
        invariant p.offset <= i <= p.offset + |text|
        invariant s == text[..i - p.offset]
        decreases p.offset + |text| - i
      {
        assert block[i] == block[..][p.offset..p.offset + |text|][i - p.offset];
        s := s + [block[i]];
        i := i + 1;
      }
    }
  }
}
