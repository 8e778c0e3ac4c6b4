/** The mip chain arithmetic of src/formats.cpp: how many bytes a texture occupies, and the search for
    the power of two by which its header was scaled down. Arithmetic wraps where the source's does. */
module Mips {
  import opened Bytes

  const MAX_LEVELS: nat := 32
  const MAX_SHIFT: nat := 4

  datatype Texture = Texture(format: nat, width: nat, height: nat, depth: nat, mips: nat, slices: nat)

  predicate BlockCompressed(format: nat) {
    71 <= format <= 99
  }

  function BlockBytes(format: nat): nat {
    if format == 71 || format == 72 || format == 80 then 8 else 16
  }

  function BitsPerPixel(format: nat): nat {
    match format
    case 2 => 128
    case 10 => 64
    case 11 => 64
    case 28 => 32
    case 29 => 32
    case 49 => 16
    case 54 => 16
    case 61 => 8
    case 65 => 8
    case _ => 32
  }

  function AtLeastOne(n: nat): (r: nat)
    ensures r >= 1
  {
    if n == 0 then 1 else n
  }

  /** Blocks across an extent; the rounding up is done in 32 bits. */
  function Blocks(extent: nat): nat {
    (extent + 3) % U32 / 4
  }

  /** Bytes of one level of the given extent, in 64 bits. */
  function LevelBytes(format: nat, w: nat, h: nat): nat {
    if BlockCompressed(format) then Blocks(w) * Blocks(h) * BlockBytes(format) % U64
    else w * h * BitsPerPixel(format) % U64 / 8
  }

  /** A shift right by `m`. */
  function Shr(n: nat, m: nat): nat {
    if m == 0 then n else Shr(n / 2, m - 1)
  }

  /** A shift left by `s`, without a width. */
  function Shl(n: nat, s: nat): (r: nat)
    ensures r >= n
  {
    if s == 0 then n else 2 * Shl(n, s - 1)
  }

  /** The first `levels` levels, each half the extent of the one before and never below one. */
  function Sum(format: nat, w: nat, h: nat, depth: nat, levels: nat): nat {
    if levels == 0 then 0
    else
      LevelBytes(format, AtLeastOne(w), AtLeastOne(h)) * AtLeastOne(depth)
      + Sum(format, w / 2, h / 2, depth / 2, levels - 1)
  }

  function Levels(mips: nat): nat {
    if mips < MAX_LEVELS then mips else MAX_LEVELS
  }

  /** What mip_chain_bytes returns. */
  function ChainBytes(t: Texture): nat {
    if t.width == 0 || t.height == 0 || t.mips == 0 then 0
    else Sum(t.format, t.width, t.height, t.depth, Levels(t.mips)) * AtLeastOne(t.slices) % U64
  }

  // ---------------------------------------------------------------- the loop

  lemma ShrNext(n: nat, m: nat)
    ensures Shr(n, m + 1) == Shr(n, m) / 2
  {
    if m > 0 {
      ShrNext(n / 2, m - 1);
    }
  }

  lemma AddWraps(a: nat, b: nat)
    ensures (a % U64 + b) % U64 == (a + b) % U64
  {
  }

  lemma MulWraps(a: nat, b: nat)
    ensures (a % U64) * b % U64 == a * b % U64
  {
    var q, r := a / U64, a % U64;
    assert a * b == q * b * U64 + r * b;
    WholeTurns(q * b, r * b);
  }

  lemma {:induction false} WholeTurns(turns: nat, rest: nat)
    ensures (turns * U64 + rest) % U64 == rest % U64
  {
    if turns > 0 {
      WholeTurns(turns - 1, rest);
    }
  }

  /** The levels left from level `m` on. */
  function Left(t: Texture, m: nat, levels: nat): nat
    requires m <= levels
  {
    Sum(t.format, Shr(t.width, m), Shr(t.height, m), Shr(t.depth, m), levels - m)
  }

  /** All slices of depth of level `m`. */
  function LevelAt(t: Texture, m: nat): nat {
    LevelBytes(t.format, AtLeastOne(Shr(t.width, m)), AtLeastOne(Shr(t.height, m))) * AtLeastOne(Shr(t.depth, m))
  }

  lemma LevelMoves(t: Texture, m: nat, levels: nat)
    requires m < levels
    ensures Left(t, m, levels) == LevelAt(t, m) + Left(t, m + 1, levels)
  {
    ShrNext(t.width, m);
    ShrNext(t.height, m);
    ShrNext(t.depth, m);
  }

  /** The running total, still to be completed by the levels left. */
  ghost predicate Running(total: nat, t: Texture, m: nat, levels: nat) {
    m <= levels && exists done: nat :: total == Wrapped(done) && done + Left(t, m, levels) == Left(t, 0, levels)
  }

  function Wrapped(n: nat): nat {
    n % U64
  }

  lemma RunningMoves(total: nat, t: Texture, m: nat, levels: nat)
    requires Running(total, t, m, levels) && m < levels
    ensures Running(Wrapped(total + LevelAt(t, m)), t, m + 1, levels)
  {
    var done: nat :| total == Wrapped(done) && done + Left(t, m, levels) == Left(t, 0, levels);
    LevelMoves(t, m, levels);
    AddWraps(done, LevelAt(t, m));
    var next := done + LevelAt(t, m);
    assert Wrapped(total + LevelAt(t, m)) == Wrapped(next) && next + Left(t, m + 1, levels) == Left(t, 0, levels);
  }

  lemma RunningEnds(total: nat, t: Texture, levels: nat, slices: nat)
    requires Running(total, t, levels, levels)
    ensures Wrapped(total * slices) == Left(t, 0, levels) * slices % U64
  {
    MulWraps(Left(t, 0, levels), slices);
  }

  /** mip_chain_bytes: a running 64-bit total over at most 32 levels. */
  method MipChainBytes(t: Texture) returns (bytes: nat)
    ensures bytes == ChainBytes(t)
    ensures NoWrap(t.format, t.width, t.height) ==>
      bytes == Surfaces(t, if t.mips < 32 then t.mips else 32) * (if t.slices == 0 then 1 else t.slices) % U64
  {
    if NoWrap(t.format, t.width, t.height) {
      ChainIsSurfaces(t);
    }
    if t.width == 0 || t.height == 0 || t.mips == 0 {
      return 0;
    }
    var total, m := 0, 0;
    ghost var levels := Levels(t.mips);
    assert Wrapped(0) == 0 && 0 + Left(t, 0, levels) == Left(t, 0, levels);
    while m < t.mips && m < MAX_LEVELS
      invariant 0 <= m <= levels && 0 <= total && Running(total, t, m, levels)
    {
      RunningMoves(total, t, m, levels);
      total := Wrapped(total + LevelAt(t, m));
      m := m + 1;
    }
    RunningEnds(total, t, levels, AtLeastOne(t.slices));
    bytes := Wrapped(total * AtLeastOne(t.slices));
  }

  // ---------------------------------------------------------------- the search

  /** The reading whose extents are shifted left: the true surface of a header biased by `s` levels. */
  function Scaled(t: Texture, s: nat): Texture {
    t.(width := Shl(t.width, s), height := Shl(t.height, s), mips := t.mips + s)
  }

  predicate InRange(t: Texture) {
    t.width < U32 && t.height < U32
  }

  /** The first shift from `s` on that fits, before the extents leave 32 bits. */
  function FirstFit(t: Texture, size: nat, s: nat): Texture
    decreases MAX_SHIFT + 1 - s
  {
    if s > MAX_SHIFT || !InRange(Scaled(t, s)) then t
    else if ChainBytes(Scaled(t, s)) == size then Scaled(t, s)
    else FirstFit(t, size, s + 1)
  }

  function Reconciled(t: Texture, size: nat): Texture {
    if ChainBytes(t) == size then t else FirstFit(t, size, 1)
  }

  /** The rescale search of describe_texture. */
  method Rescale(t: Texture, size: nat) returns (r: Texture)
    ensures r == Reconciled(t, size)
  {
    var declared := MipChainBytes(t);
    if declared == size {
      return t;
    }
    var shift := 1;
    while shift <= MAX_SHIFT
      invariant 1 <= shift <= MAX_SHIFT + 1 && FirstFit(t, size, 1) == FirstFit(t, size, shift)
    {
      var scaled := Scaled(t, shift);
      if scaled.width > 0xFFFF_FFFF || scaled.height > 0xFFFF_FFFF {
        return t;
      }
      var bytes := MipChainBytes(scaled);
      if bytes == size {
        return scaled;
      }
      shift := shift + 1;
    }
    r := t;
  }

  // ---------------------------------------------------------------- one level

  /** An extent at which no size in this format wraps. */
  predicate NoWrap(format: nat, w: nat, h: nat) {
    && 1 <= w < U32 && 1 <= h < U32
    && if BlockCompressed(format) then w + 3 < U32 && h + 3 < U32 else w * h * BitsPerPixel(format) < U64
  }

  lemma Times(a: nat, b: nat, c: nat)
    requires a <= b
    ensures a * c <= b * c
  {
  }

  lemma Product(a: nat, b: nat, c: nat, x: nat, y: nat)
    requires a <= x && b <= y
    ensures a * b * c <= x * y * c
  {
    Times(a, x, b);
    Times(b, y, x);
    Times(a * b, x * y, c);
  }

  lemma BlocksGrow(a: nat, w: nat)
    requires 1 <= a <= w && w + 3 < U32
    ensures Blocks(a) <= Blocks(w) <= 0x3FFF_FFFF
  {
  }

  lemma Ordered(n: nat, m: nat)
    requires n <= m < U64
    ensures n % U64 <= m % U64 && n % U64 / 8 <= m % U64 / 8
  {
  }

  lemma BlocksFit(w: nat, h: nat, size: nat)
    requires w <= 0x3FFF_FFFF && h <= 0x3FFF_FFFF && size <= 16
    ensures w * h * size < U64
  {
    var most: nat := 0x3FFF_FFFF * 0x3FFF_FFFF;
    Times(w, 0x3FFF_FFFF, h);
    Times(h, 0x3FFF_FFFF, 0x3FFF_FFFF);
    Times(w * h, most, size);
    assert most * size <= most * 16;
  }

  lemma BlockProduct(x: nat, y: nat, w: nat, h: nat, size: nat)
    requires x <= w <= 0x3FFF_FFFF && y <= h <= 0x3FFF_FFFF && size <= 16
    ensures x * y * size % U64 <= w * h * size % U64
  {
    BlocksFit(w, h, size);
    var p, q := x * y * size, w * h * size;
    Product(x, y, size, w, h);
    Ordered(p, q);
  }

  lemma BlockLevelGrows(format: nat, a: nat, b: nat, w: nat, h: nat)
    requires BlockCompressed(format) && NoWrap(format, w, h) && 1 <= a <= w && 1 <= b <= h
    ensures LevelBytes(format, a, b) <= LevelBytes(format, w, h)
  {
    BlocksGrow(a, w);
    BlocksGrow(b, h);
    BlockProduct(Blocks(a), Blocks(b), Blocks(w), Blocks(h), BlockBytes(format));
  }

  /** A larger surface has a larger level, or one as large. */
  lemma LevelGrows(format: nat, a: nat, b: nat, w: nat, h: nat)
    requires NoWrap(format, w, h) && 1 <= a <= w && 1 <= b <= h
    ensures NoWrap(format, a, b) && LevelBytes(format, a, b) <= LevelBytes(format, w, h)
  {
    if BlockCompressed(format) {
      BlockLevelGrows(format, a, b, w, h);
    } else {
      var bits := BitsPerPixel(format);
      Product(a, b, bits, w, h);
      Ordered(a * b * bits, w * h * bits);
    }
  }

  lemma PixelIsPositive(format: nat)
    ensures LevelBytes(format, 1, 1) > 0
  {
    assert Blocks(1) == 1;
  }

  lemma LevelIsPositive(format: nat, w: nat, h: nat)
    requires NoWrap(format, w, h)
    ensures LevelBytes(format, w, h) > 0
  {
    PixelIsPositive(format);
    LevelGrows(format, 1, 1, w, h);
  }

  // ---------------------------------------------------------------- the sum grows

  lemma {:induction false} FlatDepth(format: nat, w: nat, h: nat, levels: nat)
    ensures Sum(format, w, h, 1, levels) == Sum(format, w, h, 0, levels)
  {
  }

  /** Twice the extent and one level more is one new level in front of the same chain. */
  lemma DoubledChain(format: nat, w: nat, h: nat, levels: nat)
    requires w > 0 && h > 0
    ensures Sum(format, 2 * w, 2 * h, 1, levels + 1)
         == LevelBytes(format, 2 * w, 2 * h) + Sum(format, w, h, 1, levels)
  {
    FlatDepth(format, w, h, levels);
  }

  lemma {:induction false} LastLevel(format: nat, w: nat, h: nat, depth: nat, levels: nat)
    requires depth <= 1
    ensures Sum(format, w, h, depth, levels + 1)
         == Sum(format, w, h, depth, levels)
            + LevelBytes(format, AtLeastOne(Shr(w, levels)), AtLeastOne(Shr(h, levels)))
    decreases levels
  {
    if levels > 0 {
      LastLevel(format, w / 2, h / 2, depth / 2, levels - 1);
    }
  }

  lemma {:induction false} ShrBound(n: nat, m: nat, k: nat)
    requires n < Shl(1, m + k)
    ensures Shr(n, m) < Shl(1, k)
    decreases m
  {
    if m > 0 {
      ShrBound(n / 2, m - 1, k);
    }
  }

  lemma LastIsOnePixel(n: nat)
    requires n < U32
    ensures AtLeastOne(Shr(n, 31)) == 1
  {
    assert Shl(1, 8) == 256;
    assert Shl(1, 16) == 256 * Shl(1, 8);
    assert Shl(1, 24) == 256 * Shl(1, 16);
    assert Shl(1, 32) == 256 * Shl(1, 24);
    ShrBound(n, 31, 1);
  }

  /** One level of bias more is never a smaller chain, and is a larger one exactly when the levels
      stay within the 32 that are counted or the new top level takes more than a single pixel's. */
  lemma GrowsIff(format: nat, w: nat, h: nat, mips: nat)
    requires NoWrap(format, 2 * w, 2 * h) && w > 0 && h > 0
    ensures Sum(format, w, h, 1, Levels(mips)) <= Sum(format, 2 * w, 2 * h, 1, Levels(mips + 1))
    ensures Sum(format, w, h, 1, Levels(mips)) < Sum(format, 2 * w, 2 * h, 1, Levels(mips + 1))
       <==> mips < MAX_LEVELS || LevelBytes(format, 1, 1) < LevelBytes(format, 2 * w, 2 * h)
  {
    if mips < MAX_LEVELS {
      DoubledChain(format, w, h, mips);
      LevelIsPositive(format, 2 * w, 2 * h);
    } else {
      DoubledChain(format, w, h, 31);
      LastLevel(format, w, h, 1, 31);
      LastIsOnePixel(w);
      LastIsOnePixel(h);
      LevelGrows(format, 1, 1, 2 * w, 2 * h);
    }
  }

  // ---------------------------------------------------------------- when two readings collide

  /** The sum behind a reading. */
  function ScaledSum(t: Texture, s: nat): nat {
    Sum(t.format, Shl(t.width, s), Shl(t.height, s), 1, Levels(t.mips + s))
  }

  /** The top level of a reading. */
  function TopLevel(t: Texture, s: nat): nat {
    LevelBytes(t.format, Shl(t.width, s), Shl(t.height, s))
  }

  /** A surface without depth whose reading at `s` levels of bias has extents that do not wrap and a
      size that fits 64 bits. */
  predicate Tame(t: Texture, s: nat) {
    && t.width > 0 && t.height > 0 && t.depth == 1
    && NoWrap(t.format, Shl(t.width, s), Shl(t.height, s))
    && ScaledSum(t, s) * AtLeastOne(t.slices) < U64
  }

  /** The reading at `s` has more levels than are counted and its top level takes a single pixel's. */
  predicate Stalled(t: Texture, r: nat, s: nat) {
    t.mips + r >= MAX_LEVELS && TopLevel(t, s) == LevelBytes(t.format, 1, 1)
  }

  lemma {:induction false} ShlMonotone(n: nat, r: nat, s: nat)
    requires r <= s
    ensures Shl(n, r) <= Shl(n, s)
    decreases s
  {
    if r < s {
      ShlMonotone(n, r, s - 1);
    }
  }

  /** One level of bias less. */
  lemma TameStep(t: Texture, s: nat)
    requires s > 0 && Tame(t, s)
    ensures Tame(t, s - 1) && TopLevel(t, s - 1) <= TopLevel(t, s) && LevelBytes(t.format, 1, 1) <= TopLevel(t, s - 1)
    ensures ScaledSum(t, s - 1) <= ScaledSum(t, s) && (ScaledSum(t, s - 1) == ScaledSum(t, s) <==> Stalled(t, s - 1, s))
  {
    var w, h := Shl(t.width, s - 1), Shl(t.height, s - 1);
    assert Shl(t.width, s) == 2 * w && Shl(t.height, s) == 2 * h;
    LevelGrows(t.format, w, h, 2 * w, 2 * h);
    LevelGrows(t.format, 1, 1, w, h);
    assert LevelBytes(t.format, 1, 1) <= TopLevel(t, s - 1) <= TopLevel(t, s);
    GrowsIff(t.format, w, h, t.mips + s - 1);
    assert ScaledSum(t, s - 1) <= ScaledSum(t, s);
    Times(ScaledSum(t, s - 1), ScaledSum(t, s), AtLeastOne(t.slices));
  }

  lemma {:induction false} SumsCollideIff(t: Texture, r: nat, s: nat)
    requires r < s && Tame(t, s)
    ensures Tame(t, r) && ScaledSum(t, r) <= ScaledSum(t, s)
    ensures ScaledSum(t, r) == ScaledSum(t, s) <==> Stalled(t, r, s)
    decreases s
  {
    TameStep(t, s);
    if r < s - 1 {
      SumsCollideIff(t, r, s - 1);
    }
  }

  lemma TameBytes(t: Texture, s: nat)
    requires Tame(t, s)
    ensures ChainBytes(Scaled(t, s)) == ScaledSum(t, s) * AtLeastOne(t.slices)
  {
    assert Scaled(t, s).depth == 1 && Scaled(t, s).slices == t.slices;
  }

  lemma SameFactor(a: nat, b: nat, slices: nat)
    requires a <= b && slices >= 1
    ensures a * slices <= b * slices && (a * slices == b * slices <==> a == b)
  {
    Times(a, b, slices);
    if a < b {
      Times(a + 1, b, slices);
    }
  }

  /** More bias is never a smaller chain, and two readings have the same size exactly when the smaller
      one already has all the levels that are counted and the larger one's top level takes no more
      than a single pixel's. */
  lemma ReadingsCollideIff(t: Texture, r: nat, s: nat)
    requires r < s && Tame(t, s)
    ensures ChainBytes(Scaled(t, r)) <= ChainBytes(Scaled(t, s))
    ensures ChainBytes(Scaled(t, r)) == ChainBytes(Scaled(t, s)) <==>
      t.mips + r >= MAX_LEVELS
      && LevelBytes(t.format, Shl(t.width, s), Shl(t.height, s)) == LevelBytes(t.format, 1, 1)
  {
    SumsCollideIff(t, r, s);
    TameBytes(t, r);
    TameBytes(t, s);
    SameFactor(ScaledSum(t, r), ScaledSum(t, s), AtLeastOne(t.slices));
  }

  /** Within 32 levels the chain size strictly grows with the bias, so no two readings have the same. */
  lemma ChainGrows(t: Texture, r: nat, s: nat)
    requires r < s && Tame(t, s) && t.mips + s <= MAX_LEVELS
    ensures ChainBytes(Scaled(t, r)) < ChainBytes(Scaled(t, s))
  {
    ReadingsCollideIff(t, r, s);
  }

  // ---------------------------------------------------------------- what the search finds

  lemma {:induction false} SkipsTo(t: Texture, size: nat, r: nat, s: nat)
    requires 1 <= r <= s <= MAX_SHIFT && InRange(Scaled(t, s))
    requires forall k :: r <= k < s ==> ChainBytes(Scaled(t, k)) != size
    requires ChainBytes(Scaled(t, s)) == size
    ensures FirstFit(t, size, r) == Scaled(t, s)
    decreases s - r
  {
    ShlMonotone(t.width, r, s);
    ShlMonotone(t.height, r, s);
    if r < s {
      SkipsTo(t, size, r + 1, s);
    }
  }

  /** A reading that fits keeps the search from going past it. */
  lemma {:induction false} StopsBy(t: Texture, size: nat, r: nat, s: nat)
    requires 1 <= r <= s <= MAX_SHIFT && InRange(Scaled(t, s)) && ChainBytes(Scaled(t, s)) == size
    ensures FirstFit(t, size, r).mips <= t.mips + s
    decreases s - r
  {
    ShlMonotone(t.width, r, s);
    ShlMonotone(t.height, r, s);
    if r < s {
      StopsBy(t, size, r + 1, s);
    }
  }

  lemma StallsBefore(t: Texture, s: nat)
    requires 0 < s <= MAX_SHIFT && Tame(t, s) && Stalled(t, s - 1, s)
    ensures Reconciled(t, ChainBytes(Scaled(t, s))).mips < t.mips + s
  {
    ReadingsCollideIff(t, s - 1, s);
    TameStep(t, s);
    if s > 1 {
      StopsBy(t, ChainBytes(Scaled(t, s)), 1, s - 1);
    }
  }

  lemma FindsAtLast(t: Texture, s: nat)
    requires 0 < s <= MAX_SHIFT && Tame(t, s) && !Stalled(t, s - 1, s)
    ensures Reconciled(t, ChainBytes(Scaled(t, s))) == Scaled(t, s)
  {
    var size := ChainBytes(Scaled(t, s));
    forall k | 0 <= k < s ensures ChainBytes(Scaled(t, k)) != size {
      ReadingsCollideIff(t, k, s);
    }
    assert Scaled(t, 0) == t;
    SkipsTo(t, size, 1, s);
  }

  /** A payload that is the chain of the header's surface at some bias is read as exactly that surface,
      unless a smaller bias has the same size: the search finds it if and only if it is the header
      itself, its levels are all counted, or its top level takes more than a single pixel's. */
  lemma RecoversTheSurface(t: Texture, s: nat)
    requires s <= MAX_SHIFT && Tame(t, s)
    ensures Reconciled(t, ChainBytes(Scaled(t, s))) == Scaled(t, s) <==>
      s == 0 || t.mips + s <= MAX_LEVELS
      || LevelBytes(t.format, 1, 1) < LevelBytes(t.format, Shl(t.width, s), Shl(t.height, s))
  {
    if s > 0 {
      TameStep(t, s);
      if Stalled(t, s - 1, s) {
        StallsBefore(t, s);
      } else {
        FindsAtLast(t, s);
      }
    }
  }

  predicate Fits(t: Texture, size: nat, k: nat) {
    k <= 4 && InRange(Scaled(t, k)) && ChainBytes(Scaled(t, k)) == size
  }

  lemma {:induction false} FirstFitFits(t: Texture, size: nat, s: nat)
    requires InRange(t) && t.width > 0 && t.height > 0
    ensures FirstFit(t, size, s) == t || exists k :: s <= k && Fits(t, size, k) && FirstFit(t, size, s) == Scaled(t, k)
    ensures (exists k :: s <= k && Fits(t, size, k)) ==> ChainBytes(FirstFit(t, size, s)) == size
    decreases MAX_SHIFT + 1 - s
  {
    if s <= MAX_SHIFT && InRange(Scaled(t, s)) {
      if ChainBytes(Scaled(t, s)) == size {
        assert Fits(t, size, s);
      } else {
        FirstFitFits(t, size, s + 1);
      }
    } else if s <= MAX_SHIFT {
      forall k | s <= k
        ensures !Fits(t, size, k)
      {
        ShlMonotone(t.width, s, k);
        ShlMonotone(t.height, s, k);
      }
    }
  }

  /** Whatever the payload, the answer is the header as it stands or a biased reading of it whose size
      is the payload's; its extents fit 32 bits and are never zero; and it has the payload's size
      whenever some reading within four levels and 32 bits does. */
  lemma AnswerFits(t: Texture, size: nat)
    requires InRange(t) && t.width > 0 && t.height > 0
    ensures var r := Reconciled(t, size); InRange(r) && r.width > 0 && r.height > 0
    ensures Reconciled(t, size) == t
         || exists k :: 1 <= k && Fits(t, size, k) && Reconciled(t, size) == Scaled(t, k)
    ensures ChainBytes(Reconciled(t, size)) == size <==> exists k :: Fits(t, size, k)
  {
    assert Scaled(t, 0) == t;
    FirstFitFits(t, size, 1);
    if ChainBytes(t) == size {
      assert Fits(t, size, 0);
    }
    forall k | Fits(t, size, k)
      ensures k == 0 || 1 <= k
    {
    }
  }

  // ---------------------------------------------------------------- a collision past 32 levels

  lemma {:induction false} OneBlockLevels(levels: nat)
    ensures Sum(71, 0, 0, 0, levels) == 8 * levels && Sum(71, 1, 1, 1, levels) == 8 * levels
  {
    if levels > 0 {
      OneBlockLevels(levels - 1);
      assert LevelBytes(71, 1, 1) == 8;
    }
  }

  lemma TwoByTwo(levels: nat)
    ensures Sum(71, 2, 2, 1, levels + 1) == 8 * (levels + 1)
  {
    OneBlockLevels(levels);
    assert LevelBytes(71, 2, 2) == 8;
    DoubledChain(71, 1, 1, levels);
  }

  lemma FourByFour(levels: nat)
    ensures Sum(71, 4, 4, 1, levels + 2) == 8 * (levels + 2)
  {
    TwoByTwo(levels);
    assert LevelBytes(71, 4, 4) == 8;
    DoubledChain(71, 2, 2, levels + 1);
  }

  /** Past 32 levels two readings can have the same size: a 1x1 texture of 31 levels, read as 2x2 with
      32 levels or as 4x4 with 33, takes 256 bytes either way, and the search settles on the first. */
  lemma TwoShiftsFit()
    ensures var t := Texture(71, 1, 1, 1, 31, 1);
      && ChainBytes(Scaled(t, 1)) == 256 && ChainBytes(Scaled(t, 2)) == 256
      && Reconciled(t, 256) == Scaled(t, 1)
  {
    var t := Texture(71, 1, 1, 1, 31, 1);
    OneBlockLevels(31);
    TwoByTwo(31);
    FourByFour(30);
    assert ChainBytes(t) == 248;
    assert Scaled(t, 1) == Texture(71, 2, 2, 1, 32, 1);
    assert Shl(1, 2) == 2 * Shl(1, 1);
    assert Scaled(t, 2) == Texture(71, 4, 4, 1, 33, 1);
  }

  // ---------------------------------------------------------------- how many bytes, level by level

  lemma {:induction false} ShrIsDivision(n: nat, m: nat)
    ensures Shr(n, m) == n / Pow2(m)
    decreases m
  {
    if m > 0 {
      ShrIsDivision(n / 2, m - 1);
      DivideTwice(n, Pow2(m - 1));
    }
  }

  lemma DivideTwice(n: nat, p: nat)
    requires p > 0
    ensures n / 2 / p == n / (2 * p)
  {
    var q, r := n / 2 / p, n / 2 % p;
    assert n / 2 == q * p + r;
    var rest := n - 2 * p * q;
    assert rest == 2 * r + n % 2 && 0 <= rest < 2 * p;
    QuotientIs(n, 2 * p, q, rest);
  }

  lemma ProductIsNat(a: nat, b: nat)
    ensures 0 <= a * b
  {
  }

  lemma Multiple(d: int, x: int)
    requires d > 0
    ensures x >= 1 ==> d * x >= d
    ensures x <= -1 ==> d * x <= -d
  {
    if x >= 1 {
      ProductIsNat(d, x - 1);
      assert d * x == d + d * (x - 1);
    } else if x <= -1 {
      ProductIsNat(d, -x - 1);
      assert d * x == -d - d * (-x - 1);
    }
  }

  lemma QuotientIs(n: nat, d: nat, q: nat, r: nat)
    requires d > 0 && r < d && n == d * q + r
    ensures n / d == q
  {
    var k, m := n / d, n % d;
    assert n == d * k + m;
    assert d * (k - q) == d * k - d * q;
    Multiple(d, k - q);
  }

  /** The extent of level `i`: halved `i` times, never below one. */
  function Extent(n: nat, i: nat): (e: nat)
    ensures e >= 1
  {
    var halved: int := n / Pow2(i);
    if halved < 1 then 1 else halved
  }

  /** The bytes of one surface in plain numbers: blocks of four by four pixels, or whole bytes a pixel. */
  function SurfaceBytes(format: nat, w: nat, h: nat): nat {
    if 71 <= format <= 99 then
      ((w + 3) / 4) * ((h + 3) / 4) * (if format in {71, 72, 80} then 8 else 16)
    else
      w * h * PixelBytes(format)
  }

  function PixelBytes(format: nat): nat {
    if format == 2 then 16
    else if format in {10, 11} then 8
    else if format in {49, 54} then 2
    else if format in {61, 65} then 1
    else 4
  }

  lemma PixelsAreWholeBytes(w: nat, h: nat, bytes: nat)
    requires w * h * (8 * bytes) < U64
    ensures w * h * (8 * bytes) % U64 / 8 == w * h * bytes
  {
    assert w * h * (8 * bytes) == 8 * (w * h * bytes);
  }

  lemma LevelIsSurface(format: nat, w: nat, h: nat)
    requires NoWrap(format, w, h)
    ensures LevelBytes(format, w, h) == SurfaceBytes(format, w, h)
  {
    if BlockCompressed(format) {
      BlockSurface(w, h, BlockBytes(format));
    } else {
      assert BitsPerPixel(format) == 8 * PixelBytes(format);
      PixelsAreWholeBytes(w, h, PixelBytes(format));
    }
  }

  lemma BlocksAre(w: nat)
    requires 1 <= w && w + 3 < U32
    ensures Blocks(w) == (w + 3) / 4 <= 0x3FFF_FFFF
  {
  }

  lemma BlockSurface(w: nat, h: nat, size: nat)
    requires 1 <= w && w + 3 < U32 && 1 <= h && h + 3 < U32 && size <= 16
    ensures Blocks(w) * Blocks(h) * size % U64 == ((w + 3) / 4) * ((h + 3) / 4) * size
  {
    BlocksAre(w);
    BlocksAre(h);
    var x, y: nat := Blocks(w), Blocks(h);
    BlocksFit(x, y, size);
  }

  /** The first `n` levels of a texture, each with all slices of its own depth. */
  function Surfaces(t: Texture, n: nat): nat {
    if n == 0 then 0
    else
      Surfaces(t, n - 1)
      + SurfaceBytes(t.format, Extent(t.width, n - 1), Extent(t.height, n - 1)) * Extent(t.depth, n - 1)
  }

  lemma LevelAtIs(t: Texture, i: nat)
    requires NoWrap(t.format, t.width, t.height)
    ensures LevelAt(t, i) == SurfaceBytes(t.format, Extent(t.width, i), Extent(t.height, i)) * Extent(t.depth, i)
  {
    ExtentIs(t.width, i);
    ExtentIs(t.height, i);
    DepthIs(t.depth, i);
    LevelGrows(t.format, Extent(t.width, i), Extent(t.height, i), t.width, t.height);
    LevelIsSurface(t.format, Extent(t.width, i), Extent(t.height, i));
  }

  lemma {:induction false} ShrSmaller(n: nat, m: nat)
    ensures Shr(n, m) <= n
    decreases m
  {
    if m > 0 {
      ShrSmaller(n / 2, m - 1);
    }
  }

  lemma ExtentIs(n: nat, i: nat)
    requires n >= 1
    ensures Extent(n, i) == AtLeastOne(Shr(n, i)) && 1 <= Extent(n, i) <= n
  {
    ShrIsDivision(n, i);
    ShrSmaller(n, i);
  }

  lemma DepthIs(n: nat, i: nat)
    ensures Extent(n, i) == AtLeastOne(Shr(n, i))
  {
    ShrIsDivision(n, i);
  }

  lemma {:induction false} LeftIsSurfaces(t: Texture, m: nat, levels: nat)
    requires NoWrap(t.format, t.width, t.height) && m <= levels
    ensures Surfaces(t, m) + Left(t, m, levels) == Surfaces(t, levels)
    decreases levels - m
  {
    if m < levels {
      LevelMoves(t, m, levels);
      LevelAtIs(t, m);
      LeftIsSurfaces(t, m + 1, levels);
    }
  }

  /** The size of a texture, in plain numbers: for every slice, the levels there are but at most 32,
      each a halved surface times its own halved depth, the total cut to 64 bits. */
  lemma ChainIsSurfaces(t: Texture)
    requires NoWrap(t.format, t.width, t.height)
    ensures ChainBytes(t)
         == Surfaces(t, if t.mips < 32 then t.mips else 32) * (if t.slices == 0 then 1 else t.slices) % U64
  {
    LeftIsSurfaces(t, 0, Levels(t.mips));
  }
}
