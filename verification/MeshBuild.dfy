/** What mesh_build of src/mesh.cpp makes of a decoded mesh document, and the bounds the mesh cache
    relies on. The CR2W walks themselves are inputs: the elements they visit, in order. */
module MeshBuild {
  import opened Bytes
  import opened MeshRecord
  import opened Options

  const MATERIAL_BUDGET: nat := 0x10_0000

  /** An element of renderChunkInfos; numbers are as wide as the document says. */
  datatype ChunkElement =
    | NotStruct
    | Info(vertices: nat, indices: nat, lodMask: nat, positionOffset: nat, positionStride: nat)

  /** An element of appearances: only a handle that resolves names an appearance. */
  datatype AppearanceElement = NotHandle | Handle(name: Bytes, materials: seq<Bytes>)

  /** All that mesh_build reads. `boxes` holds what the geometry sweep finds for each chunk; it is
      shorter than the chunks when no geometry could be read. */
  datatype Facts = Facts(
    box: Box, chunks: seq<ChunkElement>, lods: Option<Word>,
    appearances: seq<AppearanceElement>, boxes: seq<Option<Box>>)

  /** Counts and lengths of a document whose segment size is a 32-bit number. */
  predicate Sized(f: Facts) {
    && |f.chunks| < U32 && |f.appearances| < U32
    && forall i :: 0 <= i < |f.appearances| && f.appearances[i].Handle? ==>
         |f.appearances[i].name| < U32 && StorableTexts(f.appearances[i].materials)
  }

  // ---------------------------------------------------------------- levels of detail

  /** 1-based position of the lowest set bit; 1 when no bit is set. */
  function LodOf(mask: nat): (lod: nat)
    ensures lod >= 1
  {
    if mask == 0 || mask % 2 == 1 then 1 else 1 + LodOf(mask / 2)
  }

  method LowestLod(mask: Word) returns (lod: nat)
    ensures lod == LodOf(mask)
  {
    if mask == 0 {
      return 1;
    }
    lod := 1;
    var rest: nat := mask;
    while rest % 2 == 0
      invariant rest > 0 && lod + LodOf(rest) == 1 + LodOf(mask)
      decreases rest
    {
      rest := rest / 2;
      lod := lod + 1;
    }
  }

  /** Bit `i` of the mask, counted from the lowest. */
  predicate Bit(mask: nat, i: nat) {
    if i == 0 then mask % 2 == 1 else Bit(mask / 2, i - 1)
  }

  /** The level reported is that of the lowest set bit, and a mask has no level past its width. */
  lemma {:induction false} LodIsLowestBit(mask: nat, width: nat)
    requires 0 < mask < Pow2(width)
    ensures LodOf(mask) <= width && Bit(mask, LodOf(mask) - 1)
    ensures forall i: nat :: i < LodOf(mask) - 1 ==> !Bit(mask, i)
    decreases width
  {
    if mask % 2 == 0 {
      LodIsLowestBit(mask / 2, width - 1);
      forall i: nat | i < LodOf(mask) - 1 ensures !Bit(mask, i) {
        if i > 0 {
          assert !Bit(mask / 2, i - 1);
        }
      }
    }
  }

  lemma WordLod(mask: Word)
    ensures 1 <= LodOf(mask) <= 32
  {
    if mask != 0 {
      PowerOf32();
      LodIsLowestBit(mask, 32);
    }
  }

  lemma PowerOf32()
    ensures Pow2(32) == U32
  {
    assert Pow2(8) == 256;
    assert Pow2(16) == 256 * Pow2(8);
    assert Pow2(24) == 256 * Pow2(16);
    assert Pow2(32) == 256 * Pow2(24);
  }

  // ---------------------------------------------------------------- chunks

  const ZERO_BOX: Box := Box(Vec(0, 0, 0), Vec(0, 0, 0))

  /** The chunk an element describes; the sweep supplies its box, or leaves it invalid. */
  function ChunkOf(index: Word, e: ChunkElement, swept: Option<Box>): (c: Chunk)
    requires e.Info?
    ensures c.lod >= 1
  {
    WordLod(e.lodMask % U32);
    Chunk(index, e.lodMask % U32, LodOf(e.lodMask % U32), e.vertices % U32, e.indices % U32,
          swept.Some?, if swept.Some? then swept.value else ZERO_BOX,
          e.positionOffset % U32, e.positionStride % U32)
  }

  function BoxFor(boxes: seq<Option<Box>>, i: nat): Option<Box> {
    if i < |boxes| then boxes[i] else None
  }

  /** Elements that are not structs are passed over but keep their index. */
  function ChunksOf(elements: seq<ChunkElement>, boxes: seq<Option<Box>>): (chunks: seq<Chunk>)
    requires |elements| < U32
    ensures |chunks| <= |elements|
    ensures forall i :: 0 <= i < |chunks| ==> chunks[i].lod >= 1
  {
    if elements == [] then []
    else
      var n := |elements| - 1;
      var before := ChunksOf(elements[..n], boxes);
      if elements[n].NotStruct? then before
      else before + [ChunkOf(n, elements[n], BoxFor(boxes, |before|))]
  }

  method GatherChunks(elements: seq<ChunkElement>, boxes: seq<Option<Box>>) returns (chunks: seq<Chunk>)
    requires |elements| < U32
    ensures chunks == ChunksOf(elements, boxes)
  {
    chunks := [];
    for i := 0 to |elements|
      invariant chunks == ChunksOf(elements[..i], boxes)
    {
      assert elements[..i + 1][..i] == elements[..i];
      if elements[i].Info? {
        var e := elements[i];
        var lod := LowestLod(e.lodMask % U32);
        WordLod(e.lodMask % U32);
        var c := ChunkOf(i, e, BoxFor(boxes, |chunks|));
        chunks := chunks + [c.(lod := lod)];
      }
    }
    assert elements[..|elements|] == elements;
  }

  /** The chunk has the element's own numbers, cut to 32 bits, its position as index, the level of the
      lowest bit of its mask, and the box the sweep found for it. */
  predicate Describes(c: Chunk, e: ChunkElement, i: nat, swept: Option<Box>) {
    && e.Info? && c.index == i && c.lodMask == e.lodMask % U32
    && c.vertices == e.vertices % U32 && c.indices == e.indices % U32
    && c.positionOffset == e.positionOffset % U32 && c.positionStride == e.positionStride % U32
    && (c.boundsValid <==> swept.Some?) && (swept.Some? ==> c.box == swept.value)
    && (c.lodMask == 0 ==> c.lod == 1)
    && (c.lodMask > 0 ==> 1 <= c.lod <= 32 && Bit(c.lodMask, c.lod - 1))
    && forall b: nat :: b + 1 < c.lod ==> !Bit(c.lodMask, b)
  }

  lemma ChunkDescribes(index: Word, e: ChunkElement, swept: Option<Box>)
    requires e.Info?
    ensures Describes(ChunkOf(index, e, swept), e, index, swept)
  {
    WordLod(e.lodMask % U32);
    PowerOf32();
    if e.lodMask % U32 > 0 {
      LodIsLowestBit(e.lodMask % U32, 32);
    }
  }

  /** The chunks describe the structs among the first `n` elements, each once and in order. */
  ghost predicate Lists(chunks: seq<Chunk>, elements: seq<ChunkElement>, n: nat, boxes: seq<Option<Box>>)
    requires n <= |elements|
  {
    && (forall k :: 0 <= k < |chunks| ==>
          && chunks[k].index < n
          && DescribesIn(chunks[k], elements, if k < |boxes| then boxes[k] else None))
    && (forall k, m :: 0 <= k < m < |chunks| ==> chunks[k].index < chunks[m].index)
    && (forall i :: 0 <= i < n && elements[i].Info? ==> Indexed(chunks, i))
  }

  predicate DescribesIn(c: Chunk, elements: seq<ChunkElement>, swept: Option<Box>) {
    c.index < |elements| && Describes(c, elements[c.index], c.index, swept)
  }

  predicate Indexed(chunks: seq<Chunk>, i: nat) {
    exists k :: 0 <= k < |chunks| && chunks[k].index == i
  }

  lemma OneMoreChunk(chunks: seq<Chunk>, c: Chunk, elements: seq<ChunkElement>, n: nat, boxes: seq<Option<Box>>)
    requires n < |elements| && Lists(chunks, elements, n, boxes) && c.index == n
    requires DescribesIn(c, elements, BoxFor(boxes, |chunks|))
    ensures Lists(chunks + [c], elements, n + 1, boxes)
  {
    var more := chunks + [c];
    assert more[|chunks|].index == n;
    forall i | 0 <= i < n && elements[i].Info?
      ensures Indexed(more, i)
    {
      assert Indexed(chunks, i);
      var k :| 0 <= k < |chunks| && chunks[k].index == i;
      assert more[k].index == i;
    }
  }

  /** One element more. */
  lemma ListsNext(before: seq<Chunk>, elements: seq<ChunkElement>, n: nat, boxes: seq<Option<Box>>)
    requires n < |elements| < U32 && Lists(before, elements, n, boxes)
    ensures elements[n].NotStruct? ==> Lists(before, elements, n + 1, boxes)
    ensures elements[n].Info? ==>
      Lists(before + [ChunkOf(n, elements[n], BoxFor(boxes, |before|))], elements, n + 1, boxes)
  {
    if elements[n].Info? {
      ChunkDescribes(n, elements[n], BoxFor(boxes, |before|));
      OneMoreChunk(before, ChunkOf(n, elements[n], BoxFor(boxes, |before|)), elements, n, boxes);
    } else {
      NoMoreChunk(before, elements, n, boxes);
    }
  }

  lemma {:induction false} ChunksListed(elements: seq<ChunkElement>, n: nat, boxes: seq<Option<Box>>)
    requires n <= |elements| < U32
    ensures Lists(ChunksOf(elements[..n], boxes), elements, n, boxes)
    decreases n
  {
    if n > 0 {
      var m: nat := n - 1;
      ChunksListed(elements, m, boxes);
      ListsNext(ChunksOf(elements[..m], boxes), elements, m, boxes);
      NextElement(elements, m, boxes);
    }
  }

  lemma NextElement(elements: seq<ChunkElement>, n: nat, boxes: seq<Option<Box>>)
    requires n < |elements| < U32
    ensures var before := ChunksOf(elements[..n], boxes);
      ChunksOf(elements[..n + 1], boxes)
      == if elements[n].NotStruct? then before
         else before + [ChunkOf(n, elements[n], BoxFor(boxes, |before|))]
  {
    assert elements[..n + 1][..n] == elements[..n];
  }

  lemma NoMoreChunk(chunks: seq<Chunk>, elements: seq<ChunkElement>, n: nat, boxes: seq<Option<Box>>)
    requires n < |elements| && elements[n].NotStruct? && Lists(chunks, elements, n, boxes)
    ensures Lists(chunks, elements, n + 1, boxes)
  {
  }

  /** The chunks are the elements that are structs, each once and in order, with nothing swapped. */
  lemma ChunksAreElements(elements: seq<ChunkElement>, boxes: seq<Option<Box>>)
    requires |elements| < U32
    ensures Lists(ChunksOf(elements, boxes), elements, |elements|, boxes)
  {
    ChunksListed(elements, |elements|, boxes);
    assert elements[..|elements|] == elements;
  }

  /** The level count is one, the levels walked, or the highest level any chunk reports. */
  function LodCount(lods: Option<Word>, chunks: seq<Chunk>): (n: Word) {
    if chunks == [] then (if lods.Some? && lods.value > 1 then lods.value else 1)
    else
      var n, last := LodCount(lods, chunks[..|chunks| - 1]), chunks[|chunks| - 1].lod;
      if last > n then last else n
  }

  method CountLods(lods: Option<Word>, chunks: seq<Chunk>) returns (n: Word)
    ensures n == LodCount(lods, chunks)
  {
    n := 1;
    if lods.Some? && lods.value > 1 {
      n := lods.value;
    }
    for i := 0 to |chunks|
      invariant n == LodCount(lods, chunks[..i])
    {
      assert chunks[..i + 1][..i] == chunks[..i];
      if chunks[i].lod > n {
        n := chunks[i].lod;
      }
    }
    assert chunks[..|chunks|] == chunks;
  }

  /** It bounds every level a caller can see, and it is no larger than it must be. */
  lemma {:induction false} LodCountBounds(lods: Option<Word>, chunks: seq<Chunk>)
    ensures var n := LodCount(lods, chunks);
      && n >= 1 && (lods.Some? ==> n >= lods.value)
      && (forall i :: 0 <= i < |chunks| ==> chunks[i].lod <= n)
      && (n == 1 || lods == Some(n) || exists i :: 0 <= i < |chunks| && chunks[i].lod == n)
  {
    if chunks != [] {
      LodCountBounds(lods, chunks[..|chunks| - 1]);
    }
  }

  // ---------------------------------------------------------------- appearances

  function Min(a: nat, b: nat): nat {
    if a < b then a else b
  }

  /** The appearances kept under a budget of material names, and what is left of it. */
  datatype Gathered = Gathered(appearances: seq<Appearance>, budget: nat)

  function Gather(elements: seq<AppearanceElement>, chunks: nat, budget: nat): Gathered {
    if elements == [] then Gathered([], budget)
    else if elements[0].NotHandle? then Gather(elements[1..], chunks, budget)
    else if budget == 0 then Gathered([], 0)
    else
      var materials := Cap(elements[0].materials, Min(chunks, budget));
      var rest := Gather(elements[1..], chunks, budget - |materials|);
      Gathered([Appearance(elements[0].name, materials)] + rest.appearances, rest.budget)
  }

  /** The walk over one appearance's materials, stopped by its callback at the limit. */
  method GatherMaterials(elements: seq<Bytes>, limit: nat) returns (names: seq<Bytes>)
    ensures names == Cap(elements, limit)
  {
    names := [];
    for i := 0 to |elements|
      invariant i <= limit && names == elements[..i]
    {
      if |names| >= limit {
        return;
      }
      names := names + [elements[i]];
    }
  }

  method GatherAppearances(elements: seq<AppearanceElement>, chunks: nat)
    returns (appearances: seq<Appearance>, budget: nat)
    ensures Gathered(appearances, budget) == Gather(elements, chunks, MATERIAL_BUDGET)
  {
    appearances, budget := [], MATERIAL_BUDGET;
    for i := 0 to |elements|
      invariant var rest := Gather(elements[i..], chunks, budget);
        Gather(elements, chunks, MATERIAL_BUDGET) == Gathered(appearances + rest.appearances, rest.budget)
    {
      assert elements[i..][1..] == elements[i + 1..];
      if elements[i].Handle? {
        if budget == 0 {
          assert appearances + [] == appearances;
          return;
        }
        var materials := GatherMaterials(elements[i].materials, Min(chunks, budget));
        ghost var a := Appearance(elements[i].name, materials);
        ghost var rest := Gather(elements[i + 1..], chunks, budget - |materials|).appearances;
        assert appearances + ([a] + rest) == appearances + [a] + rest;
        appearances := appearances + [Appearance(elements[i].name, materials)];
        budget := budget - Min(budget, |materials|);
      }
    }
    assert appearances + [] == appearances;
  }

  function Names(appearances: seq<Appearance>): nat {
    if appearances == [] then 0 else |appearances[0].materials| + Names(appearances[1..])
  }

  /** The budget is conserved: what the appearances hold and what is left add up to what there was.
      No appearance names more materials than there are chunks. */
  lemma {:induction false} BudgetIsConserved(elements: seq<AppearanceElement>, chunks: nat, budget: nat)
    ensures var g := Gather(elements, chunks, budget);
      && Names(g.appearances) + g.budget == budget
      && |g.appearances| <= |elements|
      && forall i :: 0 <= i < |g.appearances| ==> |g.appearances[i].materials| <= chunks
  {
    if elements != [] {
      if elements[0].NotHandle? {
        BudgetIsConserved(elements[1..], chunks, budget);
      } else if budget > 0 {
        var materials := Cap(elements[0].materials, Min(chunks, budget));
        BudgetIsConserved(elements[1..], chunks, budget - |materials|);
        var rest := Gather(elements[1..], chunks, budget - |materials|).appearances;
        assert ([Appearance(elements[0].name, materials)] + rest)[1..] == rest;
      }
    }
  }

  /** The appearances of a document that stays within the budget: every handle, each cut only to the
      chunk count. */
  function Uncut(elements: seq<AppearanceElement>, chunks: nat): seq<Appearance> {
    if elements == [] then []
    else if elements[0].NotHandle? then Uncut(elements[1..], chunks)
    else [Appearance(elements[0].name, Cap(elements[0].materials, chunks))] + Uncut(elements[1..], chunks)
  }

  /** The names wanted fit, and no handle is left once they are used up. */
  predicate WithinBudget(elements: seq<AppearanceElement>, chunks: nat, budget: nat) {
    if elements == [] then true
    else if elements[0].NotHandle? then WithinBudget(elements[1..], chunks, budget)
    else
      var wanted := |Cap(elements[0].materials, chunks)|;
      budget > 0 && wanted <= budget && WithinBudget(elements[1..], chunks, budget - wanted)
  }

  /** The budget cuts nothing exactly when the document stays within it. */
  lemma {:induction false} UncutIff(elements: seq<AppearanceElement>, chunks: nat, budget: nat)
    ensures Gather(elements, chunks, budget).appearances == Uncut(elements, chunks)
       <==> WithinBudget(elements, chunks, budget)
  {
    if elements != [] {
      if elements[0].NotHandle? {
        UncutIff(elements[1..], chunks, budget);
      } else if budget > 0 {
        var materials := Cap(elements[0].materials, Min(chunks, budget));
        var uncut := Cap(elements[0].materials, chunks);
        UncutIff(elements[1..], chunks, budget - |materials|);
        var got, all := Gather(elements, chunks, budget).appearances, Uncut(elements, chunks);
        assert got[1..] == Gather(elements[1..], chunks, budget - |materials|).appearances;
        assert all[1..] == Uncut(elements[1..], chunks);
        assert got[0].materials == materials && all[0].materials == uncut;
        assert |uncut| <= budget <==> materials == uncut;
      }
    }
  }

  /** What was kept of an appearance: its name, and its first materials. */
  predicate CutOf(kept: Appearance, whole: Appearance) {
    kept.name == whole.name && kept.materials <= whole.materials
  }

  /** The budget is spent in order: what is kept are the first appearances, all whole but the last, and
      if anything is cut or left out the budget is used up. */
  lemma {:induction false} GatherIsGreedy(elements: seq<AppearanceElement>, chunks: nat, budget: nat)
    ensures var g, whole := Gather(elements, chunks, budget), Uncut(elements, chunks);
      && |g.appearances| <= |whole|
      && (forall i :: 0 <= i < |g.appearances| ==> CutOf(g.appearances[i], whole[i]))
      && (forall i :: 0 <= i < |g.appearances| - 1 ==> g.appearances[i] == whole[i])
      && (g.appearances != whole ==> g.budget == 0)
    decreases |elements|, 1
  {
    if elements != [] {
      if elements[0].NotHandle? {
        GatherIsGreedy(elements[1..], chunks, budget);
      } else if budget > 0 {
        GreedyHead(elements, chunks, budget);
      }
    }
  }

  lemma {:induction false} GreedyHead(elements: seq<AppearanceElement>, chunks: nat, budget: nat)
    requires elements != [] && elements[0].Handle? && budget > 0
    ensures var g, whole := Gather(elements, chunks, budget), Uncut(elements, chunks);
      && |g.appearances| <= |whole|
      && (forall i :: 0 <= i < |g.appearances| ==> CutOf(g.appearances[i], whole[i]))
      && (forall i :: 0 <= i < |g.appearances| - 1 ==> g.appearances[i] == whole[i])
      && (g.appearances != whole ==> g.budget == 0)
    decreases |elements|, 0
  {
    var materials := Cap(elements[0].materials, Min(chunks, budget));
    var left := budget - |materials|;
    var rest, others := Gather(elements[1..], chunks, left), Uncut(elements[1..], chunks);
    GatherIsGreedy(elements[1..], chunks, left);
    if left == 0 {
      NothingLeft(elements[1..], chunks);
    } else {
      assert materials == Cap(elements[0].materials, chunks);
    }
  }

  lemma {:induction false} NothingLeft(elements: seq<AppearanceElement>, chunks: nat)
    ensures Gather(elements, chunks, 0) == Gathered([], 0)
  {
    if elements != [] {
      NothingLeft(elements[1..], chunks);
    }
  }

  // ---------------------------------------------------------------- the mesh

  function Built(hash: MeshHash, f: Facts): Mesh
    requires Sized(f)
  {
    var chunks := ChunksOf(f.chunks, f.boxes);
    Mesh(hash, LodCount(f.lods, chunks), f.box, chunks,
         Gather(f.appearances, |chunks|, MATERIAL_BUDGET).appearances)
  }

  method Build(hash: MeshHash, f: Facts) returns (m: Mesh)
    requires Sized(f)
    ensures m == Built(hash, f)
  {
    var chunks := GatherChunks(f.chunks, f.boxes);
    var lodCount := CountLods(f.lods, chunks);
    var appearances, budget := GatherAppearances(f.appearances, |chunks|);
    m := Mesh(hash, lodCount, f.box, chunks, appearances);
  }

  lemma {:induction false} GatheredIsStorable(elements: seq<AppearanceElement>, chunks: nat, budget: nat)
    requires forall i :: 0 <= i < |elements| && elements[i].Handle? ==>
      |elements[i].name| < U32 && StorableTexts(elements[i].materials)
    ensures forall a :: a in Gather(elements, chunks, budget).appearances ==> StorableAppearance(a)
  {
    if elements != [] {
      if elements[0].NotHandle? {
        GatheredIsStorable(elements[1..], chunks, budget);
      } else if budget > 0 {
        var materials := Cap(elements[0].materials, Min(chunks, budget));
        assert StorableTexts(elements[0].materials) && StorableTexts(materials);
        GatheredIsStorable(elements[1..], chunks, budget - |materials|);
      }
    }
  }

  /** What a build takes over as it is. */
  lemma BuiltFields(hash: MeshHash, f: Facts)
    requires Sized(f)
    ensures var m := Built(hash, f);
      && m.hash == hash && m.box == f.box && m.chunks == ChunksOf(f.chunks, f.boxes)
      && |m.appearances| <= |Uncut(f.appearances, |m.chunks|)|
      && forall i :: 0 <= i < |m.appearances| ==> CutOf(m.appearances[i], Uncut(f.appearances, |m.chunks|)[i])
  {
    GatherIsGreedy(f.appearances, |ChunksOf(f.chunks, f.boxes)|, MATERIAL_BUDGET);
  }

  /** Every mesh that is built can be stored, holds at most the budget of names, and comes back from
      the cache file unrepaired. */
  lemma BuiltSurvivesStorage(hash: MeshHash, f: Facts)
    requires Sized(f)
    ensures var m := Built(hash, f);
      && Storable(m) && WellBuilt(m) && Repaired(m) == Public(m)
      && Names(m.appearances) <= 0x10_0000
      && forall i :: 0 <= i < |m.chunks| ==> 1 <= m.chunks[i].lod <= m.lodCount
  {
    var m := Built(hash, f);
    LodCountBounds(f.lods, m.chunks);
    BudgetIsConserved(f.appearances, |m.chunks|, MATERIAL_BUDGET);
    GatheredIsStorable(f.appearances, |m.chunks|, MATERIAL_BUDGET);
    RepairsNothingIff(m);
  }
}
