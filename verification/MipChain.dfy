/**
 The mip chain of a bound texture (nv2a.rs, `bind_texture` and `MemoryTexture`):
 levels halve and follow one another from the base, swizzled levels texel by
 texel, compressed levels block by block.
 */
module MipChain {
  import opened Words
  import opened Bits
  import opened Swizzle

  const MAX_MIP_LEVELS: nat := 13
  const MAX_TEXTURE_DIMENSION: nat := 4096

  datatype Layout = Linear | Swizzled | Dxt1 | Dxt3 | Dxt5

  /** What a texture unit's registers say. A format not decoded has no layout; an unbound object no base. */
  datatype Request = Request(
    layout: Option<Layout>,
    widthLog: nat,
    heightLog: nat,
    rectangle: (nat, nat),
    pitch: nat,
    claimedLevels: nat,
    base: Option<u32>)

  datatype Shape = Shape(base: u32, width: nat, height: nat, layout: Layout, levels: nat)

  function TrailingZeros(x: nat): nat
    requires x > 0
  {
    if x % 2 == 1 then 0 else 1 + TrailingZeros(x / 2)
  }

  function Max(a: nat, b: nat): nat { if a < b then b else a }

  function Bind(r: Request): Option<Shape> {
    if r.layout.None? then None else
    var layout := r.layout.value;
    var width, height := if layout.Linear? then r.rectangle.0 else Pow2(r.widthLog),
                         if layout.Linear? then r.rectangle.1 else Pow2(r.heightLog);
    if width == 0 || height == 0 then None
    else if layout.Linear? && r.pitch == 0 then None
    else if width > MAX_TEXTURE_DIMENSION || height > MAX_TEXTURE_DIMENSION then None
    else if r.base.None? then None
    else
      var levels := if layout.Linear? then 1 else Min(Max(r.claimedLevels, 1), TrailingZeros(Max(width, height)) + 1);
      Some(Shape(r.base.value, width, height, layout, levels))
  }

  // --- one level ---------------------------------------------------------------------

  /** The size of a dimension at a level: halved each time, at least one. */
  function Halved(dimension: nat, level: nat): (n: nat)
    ensures n > 0
  {
    Max(Shr(dimension, level), 1)
  }

  function Blocks(n: nat): nat { (n + 3) / 4 }

  function BlockBytes(layout: Layout): nat { if layout.Dxt1? then 8 else 16 }

  function LevelBytes(s: Shape, level: nat): nat {
    var width, height := Halved(s.width, level), Halved(s.height, level);
    match s.layout
    case Linear => 0
    case Swizzled => width * height * 4
    case _ => Blocks(width) * Blocks(height) * BlockBytes(s.layout)
  }

  /** How far from the base a level begins. */
  function LevelOffset(s: Shape, level: nat): nat {
    if level == 0 then 0 else LevelOffset(s, level - 1) + LevelBytes(s, level - 1)
  }

  function LevelBase(s: Shape, level: nat): u32 { WrapAdd(s.base, LevelOffset(s, level)) }

  /** A power of two's level is the power of two below, down to one. */
  function LogAt(log: nat, level: nat): nat { if level <= log then log - level else 0 }

  lemma {:induction false} HalvedPower(log: nat, level: nat)
    ensures Halved(Pow2(log), level) == Pow2(LogAt(log, level))
    decreases level
  {
    if level == 0 {
    } else if log == 0 {
      ShrZero(level - 1);
    } else {
      assert Pow2(log) / 2 == Pow2(log - 1);
      HalvedPower(log - 1, level - 1);
    }
  }

  lemma {:induction false} ShrZero(n: nat)
    ensures Shr(0, n) == 0
  {
    if n > 0 { ShrZero(n - 1); }
  }

  lemma {:induction false} ZerosOfPower(log: nat)
    ensures TrailingZeros(Pow2(log)) == log
  {
    if log > 0 { ZerosOfPower(log - 1); }
  }

  lemma {:induction false} PowAdd(a: nat, b: nat)
    ensures Pow2(a) * Pow2(b) == Pow2(a + b)
  {
    if a > 0 {
      PowAdd(a - 1, b);
      Doubles(Pow2(a - 1), Pow2(b));
    }
  }

  lemma Doubles(p: nat, q: nat)
    ensures 2 * p * q == 2 * (p * q)
  {}

  lemma {:induction false} PowMonotone(j: nat, k: nat)
    ensures j < k ==> Pow2(j) < Pow2(k)
    decreases k
  {
    if j < k { PowMonotone(j, k - 1); }
  }

  // --- how many levels -----------------------------------------------------------------

  /** The logarithms behind a bound texture that is not linear. */
  lemma BoundLogs(r: Request)
    requires Bind(r).Some? && !r.layout.value.Linear?
    ensures r.widthLog <= 12 && r.heightLog <= 12
    ensures Bind(r).value.width == Pow2(r.widthLog) && Bind(r).value.height == Pow2(r.heightLog)
    ensures Bind(r).value.levels == Min(Max(r.claimedLevels, 1), Max(r.widthLog, r.heightLog) + 1)
  {
    hide Pow2, TrailingZeros;
    PowMonotone(12, r.widthLog);
    PowMonotone(12, r.heightLog);
    assert Pow2(12) == 4096 by { PowSmall(); PowStep(4); PowStep(8); }
    PowMonotone(r.widthLog, r.heightLog);
    PowMonotone(r.heightLog, r.widthLog);
    ZerosOfPower(r.widthLog);
    ZerosOfPower(r.heightLog);
  }

  /**
   Which textures are bound: a known format and an object, with a rectangle and
   pitch that are not zero, or logarithms, that stay within 4096; at the size they say.
   */
  lemma BoundMeans(r: Request)
    ensures Bind(r).Some? <==>
              && r.layout.Some? && r.base.Some?
              && if r.layout.value.Linear?
                 then 0 < r.rectangle.0 <= 4096 && 0 < r.rectangle.1 <= 4096 && r.pitch > 0
                 else r.widthLog <= 12 && r.heightLog <= 12
    ensures Bind(r).Some? ==>
              var s := Bind(r).value;
              && s.base == r.base.value && s.layout == r.layout.value
              && (s.layout.Linear? ==> s.levels == 1 && (s.width, s.height) == r.rectangle)
              && (!s.layout.Linear? ==> s.width == Pow2(r.widthLog) && s.height == Pow2(r.heightLog))
  {
    hide Pow2, TrailingZeros;
    assert Pow2(12) == 4096 by { PowSmall(); PowStep(4); PowStep(8); }
    PowMonotone(12, r.widthLog);
    PowMonotone(12, r.heightLog);
    PowMonotone(r.widthLog, 12);
    PowMonotone(r.heightLog, 12);
  }

  /**
   A chain has at least one level and never more than the table holds; it stops
   at the one-by-one level, which only the last possible level is.
   */
  lemma LevelsStopAtOne(r: Request, level: nat)
    requires Bind(r).Some? && !r.layout.value.Linear?
    ensures var s := Bind(r).value;
            && 1 <= s.levels <= MAX_MIP_LEVELS
            && (level < s.levels && Halved(s.width, level) == 1 && Halved(s.height, level) == 1 ==> level == s.levels - 1)
            && (r.claimedLevels >= MAX_MIP_LEVELS ==> Halved(s.width, s.levels - 1) == 1 && Halved(s.height, s.levels - 1) == 1)
  {
    hide Pow2, Halved, Bind;
    BoundLogs(r);
    HalvedPower(r.widthLog, level);
    HalvedPower(r.heightLog, level);
    HalvedPower(r.widthLog, Bind(r).value.levels - 1);
    HalvedPower(r.heightLog, Bind(r).value.levels - 1);
    PowOne(LogAt(r.widthLog, level));
    PowOne(LogAt(r.heightLog, level));
    PowOne(0);
  }

  lemma PowOne(k: nat)
    ensures Pow2(k) == 1 <==> k == 0
  {}

  // --- where things lie -------------------------------------------------------------------

  /** A dimension of at most 4096 stays so. */
  lemma {:induction false} HalvedBound(dimension: nat, level: nat)
    requires 1 <= dimension <= MAX_TEXTURE_DIMENSION
    ensures Halved(dimension, level) <= MAX_TEXTURE_DIMENSION
    decreases level
  {
    if level > 0 { if dimension == 1 { ShrZero(level - 1); } else { HalvedBound(dimension / 2, level - 1); } }
  }

  lemma LevelBytesBound(s: Shape, level: nat)
    requires 1 <= s.width <= MAX_TEXTURE_DIMENSION && 1 <= s.height <= MAX_TEXTURE_DIMENSION
    ensures LevelBytes(s, level) <= 0x400_0000
  {
    hide Halved;
    HalvedBound(s.width, level);
    HalvedBound(s.height, level);
    var a, b := Halved(s.width, level), Halved(s.height, level);
    ProductBound(a, b, 4096);
    ProductBound(Blocks(a), Blocks(b), 1024);
  }

  lemma ProductBound(a: nat, b: nat, n: nat)
    requires a <= n && b <= n
    ensures a * b <= n * n
  {}

  /** The offsets rise, and a whole chain is far smaller than the address space. */
  lemma {:induction false} OffsetsRise(s: Shape, low: nat, high: nat)
    requires 1 <= s.width <= MAX_TEXTURE_DIMENSION && 1 <= s.height <= MAX_TEXTURE_DIMENSION
    requires low <= high <= MAX_MIP_LEVELS
    ensures LevelOffset(s, low) <= LevelOffset(s, high) <= high * 0x400_0000 < TWO32
    decreases high
  {
    hide LevelBytes;
    if high > 0 {
      LevelBytesBound(s, high - 1);
      OffsetsRise(s, if low < high then low else low - 1, high - 1);
    }
  }

  /** A texel of a level of a swizzled texture. */
  predicate InLevel(s: Shape, level: nat, x: nat, y: nat) {
    level < s.levels && x < Halved(s.width, level) && y < Halved(s.height, level)
  }

  function TexelIndex(s: Shape, level: nat, x: nat, y: nat): nat {
    Interleave(x, y, TrailingZeros(Halved(s.width, level)), TrailingZeros(Halved(s.height, level)), true)
  }

  function TexelOffset(s: Shape, level: nat, x: nat, y: nat): nat { LevelOffset(s, level) + TexelIndex(s, level, x, y) * 4 }

  function TexelAddress(s: Shape, level: nat, x: nat, y: nat): u32 { WrapAdd(s.base, TexelOffset(s, level, x, y)) }

  ghost predicate BoundSwizzled(r: Request) { Bind(r).Some? && Bind(r).value.layout.Swizzled? }

  /** The logarithms of one level, and the level's size by them. */
  lemma LevelLogs(r: Request, level: nat) returns (a: nat, b: nat)
    requires BoundSwizzled(r)
    ensures var s := Bind(r).value;
            && Halved(s.width, level) == Pow2(a) && Halved(s.height, level) == Pow2(b)
            && TrailingZeros(Halved(s.width, level)) == a && TrailingZeros(Halved(s.height, level)) == b
            && LevelBytes(s, level) == Pow2(a + b) * 4
            && 1 <= s.width <= MAX_TEXTURE_DIMENSION && 1 <= s.height <= MAX_TEXTURE_DIMENSION && s.levels <= MAX_MIP_LEVELS
  {
    hide Pow2, Halved, TrailingZeros;
    BoundLogs(r);
    a, b := LogAt(r.widthLog, level), LogAt(r.heightLog, level);
    HalvedPower(r.widthLog, level);
    HalvedPower(r.heightLog, level);
    ZerosOfPower(a);
    ZerosOfPower(b);
    PowAdd(a, b);
  }

  /**
   Where a texel lies, bit by bit: with the level's sizes 2^a and 2^b, bit k of
   the column is k places up and one more for each row bit below it, bit k of the
   row likewise; levels are 4 * 2^(a + b) bytes apart.
   */
  lemma TexelBits(r: Request, level: nat, x: nat, y: nat)
    requires BoundSwizzled(r) && InLevel(Bind(r).value, level, x, y)
    ensures var s := Bind(r).value;
            var a := if level <= r.widthLog then r.widthLog - level else 0;
            var b := if level <= r.heightLog then r.heightLog - level else 0;
            var index := (TexelOffset(s, level, x, y) - LevelOffset(s, level)) / 4;
            && TexelOffset(s, level, x, y) == LevelOffset(s, level) + 4 * index && 0 <= index < Pow2(a + b)
            && (forall k :: 0 <= k < a ==> Bit(index, k + Min(k, b)) == Bit(x, k))
            && (forall k :: 0 <= k < b ==> Bit(index, k + Min(k + 1, a)) == Bit(y, k))
            && LevelOffset(s, 0) == 0 && LevelOffset(s, level + 1) == LevelOffset(s, level) + 4 * Pow2(a + b)
  {
    hide Pow2, Halved, TrailingZeros, Bind, Interleave, LevelBytes, Bit;
    var s := Bind(r).value;
    var a, b := LevelLogs(r, level);
    LogsAre(r, level, a, b);
    SeparateInterleave(x, y, a, b, true);
    forall k | 0 <= k < a ensures Bit(TexelIndex(s, level, x, y), k + Min(k, b)) == Bit(x, k) { InterleavedBits(x, y, a, b, true, k); }
    forall k | 0 <= k < b ensures Bit(TexelIndex(s, level, x, y), k + Min(k + 1, a)) == Bit(y, k) { InterleavedBits(x, y, a, b, true, k); }
  }

  lemma LogsAre(r: Request, level: nat, a: nat, b: nat)
    requires BoundSwizzled(r) && Halved(Bind(r).value.width, level) == Pow2(a) && Halved(Bind(r).value.height, level) == Pow2(b)
    ensures a == (if level <= r.widthLog then r.widthLog - level else 0) && b == (if level <= r.heightLog then r.heightLog - level else 0)
  {
    hide Pow2, Halved, TrailingZeros, LogAt;
    BoundLogs(r);
    HalvedPower(r.widthLog, level);
    HalvedPower(r.heightLog, level);
    var c, d := LogAt(r.widthLog, level), LogAt(r.heightLog, level);
    PowMonotone(a, c); PowMonotone(c, a); PowMonotone(b, d); PowMonotone(d, b);
    LogIs(r.widthLog, level);
    LogIs(r.heightLog, level);
  }

  lemma LogIs(log: nat, level: nat)
    ensures LogAt(log, level) == if level <= log then log - level else 0
  {}

  /** A texel lies in its own level's slice. */
  lemma TexelInSlice(r: Request, level: nat, x: nat, y: nat)
    requires BoundSwizzled(r) && InLevel(Bind(r).value, level, x, y)
    ensures var s := Bind(r).value;
            LevelOffset(s, level) <= TexelOffset(s, level, x, y) && TexelOffset(s, level, x, y) + 4 <= LevelOffset(s, level + 1)
  {
    hide Pow2, Halved, TrailingZeros, Bind, Interleave, LevelBytes;
    var a, b := LevelLogs(r, level);
    SeparateInterleave(x, y, a, b, true);
  }

  /** No two texels of a bound texture share an address, not even when addresses wrap. */
  lemma TexelsDistinct(r: Request, level: nat, x: nat, y: nat, level': nat, x': nat, y': nat)
    requires BoundSwizzled(r) && InLevel(Bind(r).value, level, x, y) && InLevel(Bind(r).value, level', x', y')
    requires (level, x, y) != (level', x', y')
    ensures TexelAddress(Bind(r).value, level, x, y) != TexelAddress(Bind(r).value, level', x', y')
  {
    hide Pow2, Halved, TrailingZeros, Bind, Interleave, LevelBytes, Separate, LevelOffset;
    var s := Bind(r).value;
    TexelInSlice(r, level, x, y);
    TexelInSlice(r, level', x', y');
    var a, b := LevelLogs(r, level);
    OffsetsRise(s, 0, level + 1);
    OffsetsRise(s, 0, level' + 1);
    if level < level' {
      OffsetsRise(s, level + 1, level');
    } else if level' < level {
      OffsetsRise(s, level' + 1, level);
    } else {
      SeparateInterleave(x, y, a, b, true);
      SeparateInterleave(x', y', a, b, true);
    }
    WrapDistinct(s.base, TexelOffset(s, level, x, y), TexelOffset(s, level', x', y'));
  }

  lemma WrapDistinct(base: u32, a: nat, b: nat)
    requires a < TWO32 && b < TWO32 && a != b
    ensures WrapAdd(base, a) != WrapAdd(base, b)
  {}

  /** Where nothing wraps, a texel's four bytes lie between its level's base and the next. */
  lemma TexelBetweenBases(r: Request, level: nat, x: nat, y: nat)
    requires BoundSwizzled(r) && InLevel(Bind(r).value, level, x, y)
    requires Bind(r).value.base + LevelOffset(Bind(r).value, Bind(r).value.levels) < TWO32
    ensures var s := Bind(r).value;
            LevelBase(s, level) <= TexelAddress(s, level, x, y) && TexelAddress(s, level, x, y) + 4 <= LevelBase(s, level + 1)
  {
    hide Pow2, Halved, TrailingZeros, Bind, Interleave, LevelBytes, LevelOffset;
    var s := Bind(r).value;
    var _, _ := LevelLogs(r, level);
    TexelInSlice(r, level, x, y);
    OffsetsRise(s, level + 1, s.levels);
  }

  /** Every dword of the chain is some texel. */
  lemma {:induction false} ChainCovered(r: Request, levels: nat, offset: nat) returns (level: nat, x: nat, y: nat)
    requires BoundSwizzled(r) && levels <= Bind(r).value.levels
    requires offset % 4 == 0 && offset < LevelOffset(Bind(r).value, levels)
    ensures InLevel(Bind(r).value, level, x, y) && TexelOffset(Bind(r).value, level, x, y) == offset
    decreases levels
  {
    hide Pow2, Halved, TrailingZeros, Bind, Interleave, Separate, LevelBytes;
    var s := Bind(r).value;
    var last := levels - 1;
    if offset < LevelOffset(s, last) {
      level, x, y := ChainCovered(r, last, offset);
    } else {
      var a, b := LevelLogs(r, last);
      OffsetsAligned(r, last);
      var index := (offset - LevelOffset(s, last)) / 4;
      InterleaveSeparate(index, a, b, true);
      level, x, y := last, Separate(index, a, b, true).x, Separate(index, a, b, true).y;
    }
  }

  lemma {:induction false} OffsetsAligned(r: Request, level: nat)
    requires BoundSwizzled(r)
    ensures LevelOffset(Bind(r).value, level) % 4 == 0
  {
    hide Halved, Bind;
    if level > 0 { OffsetsAligned(r, level - 1); }
  }

  // --- compressed levels -------------------------------------------------------------------

  function BlockIndex(s: Shape, level: nat, x: nat, y: nat): nat { y / 4 * Blocks(Halved(s.width, level)) + x / 4 }

  function BlockOffset(s: Shape, level: nat, x: nat, y: nat): nat {
    LevelOffset(s, level) + BlockIndex(s, level, x, y) * BlockBytes(s.layout)
  }

  ghost predicate BoundCompressed(r: Request) {
    Bind(r).Some? && !Bind(r).value.layout.Linear? && !Bind(r).value.layout.Swizzled?
  }

  /** Row-major indexes: below the total, and told apart by row and column. */
  lemma RowMajor(row: nat, column: nat, rows: nat, columns: nat, row': nat, column': nat)
    requires row < rows && column < columns && column' < columns
    ensures row * columns + column + 1 <= rows * columns
    ensures row * columns + column == row' * columns + column' ==> row == row' && column == column'
  {
    ScaledApart(row, rows, columns);
    if row * columns + column == row' * columns + column' {
      Commutes(row, columns);
      Commutes(row', columns);
      DivUnique(row * columns + column, columns, row, column);
      DivUnique(row * columns + column, columns, row', column');
    }
  }

  lemma Commutes(a: nat, b: nat)
    ensures a * b == b * a
  {}

  lemma {:induction false} ScaledApart(a: nat, b: nat, n: nat)
    ensures a < b ==> a * n + n <= b * n
    decreases b
  {
    if a < b {
      assert b * n == (b - 1) * n + n;
      if a < b - 1 { ScaledApart(a, b - 1, n); }
    }
  }

  /**
   Where a block lies: the first at its level's base, blocks of 8 bytes (DXT1)
   or 16 side by side four texels apart, rows of blocks one after the other, and
   the next level behind the last row.
   */
  lemma BlocksFollow(s: Shape, level: nat, x: nat, y: nat)
    requires !s.layout.Linear? && !s.layout.Swizzled?
    ensures var n := if s.layout.Dxt1? then 8 else 16;
            var columns, rows := (Halved(s.width, level) + 3) / 4, (Halved(s.height, level) + 3) / 4;
            && BlockOffset(s, level, 0, 0) == LevelOffset(s, level) && LevelOffset(s, level + 1) == LevelOffset(s, level) + columns * rows * n
            && BlockOffset(s, level, x + 4, y) == BlockOffset(s, level, x, y) + n
            && BlockOffset(s, level, x, y + 4) == BlockOffset(s, level, x, y) + columns * n
            && BlockOffset(s, level, x - x % 4, y - y % 4) == BlockOffset(s, level, x, y)
  {
    hide Halved, Blocks, BlockIndex;
    BlocksIs(Halved(s.width, level));
    BlocksIs(Halved(s.height, level));
    BlockSteps(s, level, x, y);
  }

  lemma BlockSteps(s: Shape, level: nat, x: nat, y: nat)
    ensures BlockIndex(s, level, 0, 0) == 0 && BlockIndex(s, level, x + 4, y) == BlockIndex(s, level, x, y) + 1
    ensures BlockIndex(s, level, x, y + 4) == BlockIndex(s, level, x, y) + Blocks(Halved(s.width, level))
    ensures BlockIndex(s, level, x - x % 4, y - y % 4) == BlockIndex(s, level, x, y)
  {
    hide Halved, Blocks;
    NextRow(y / 4, Blocks(Halved(s.width, level)));
  }

  lemma NextRow(row: nat, columns: nat)
    ensures (row + 1) * columns == row * columns + columns && 0 * columns == 0
  {}

  lemma BlocksIs(n: nat)
    ensures Blocks(n) == (n + 3) / 4
  {}

  /** A block lies whole in its level's slice, the padded edge blocks included. */
  lemma BlockInSlice(s: Shape, level: nat, x: nat, y: nat)
    requires !s.layout.Linear? && !s.layout.Swizzled? && x < Halved(s.width, level) && y < Halved(s.height, level)
    ensures LevelOffset(s, level) <= BlockOffset(s, level, x, y)
    ensures BlockOffset(s, level, x, y) + BlockBytes(s.layout) <= LevelOffset(s, level + 1)
  {
    hide Halved;
    var columns, rows, n := Blocks(Halved(s.width, level)), Blocks(Halved(s.height, level)), BlockBytes(s.layout);
    assert x / 4 < columns && y / 4 < rows;
    RowMajor(y / 4, x / 4, rows, columns, 0, 0);
    ScaledApart(BlockIndex(s, level, x, y), rows * columns, n);
    assert rows * columns == columns * rows;
  }

  /** Texels of different blocks read disjoint bytes, across the whole chain. */
  lemma BlocksDisjoint(r: Request, level: nat, x: nat, y: nat, level': nat, x': nat, y': nat)
    requires BoundCompressed(r) && InLevel(Bind(r).value, level, x, y) && InLevel(Bind(r).value, level', x', y')
    requires (level, x / 4, y / 4) != (level', x' / 4, y' / 4)
    ensures var s := Bind(r).value;
            var a, b, n := BlockOffset(s, level, x, y), BlockOffset(s, level', x', y'), BlockBytes(s.layout);
            a + n <= b || b + n <= a
  {
    hide Halved, LevelOffset, LevelBytes, Bind;
    var s := Bind(r).value;
    BlockInSlice(s, level, x, y);
    BlockInSlice(s, level', x', y');
    BoundSizes(r);
    if level < level' {
      OffsetsRise(s, level + 1, level');
    } else if level' < level {
      OffsetsRise(s, level' + 1, level);
    } else {
      var columns, rows := Blocks(Halved(s.width, level)), Blocks(Halved(s.height, level));
      var i, j := BlockIndex(s, level, x, y), BlockIndex(s, level, x', y');
      assert x / 4 < columns && x' / 4 < columns && y / 4 < rows;
      RowMajor(y / 4, x / 4, rows, columns, y' / 4, x' / 4);
      ScaledApart(i, j, BlockBytes(s.layout));
      ScaledApart(j, i, BlockBytes(s.layout));
    }
  }

  lemma BoundSizes(r: Request)
    requires BoundCompressed(r)
    ensures var s := Bind(r).value;
            1 <= s.width <= MAX_TEXTURE_DIMENSION && 1 <= s.height <= MAX_TEXTURE_DIMENSION && s.levels <= MAX_MIP_LEVELS
  {
    BoundLogs(r);
  }

  /** Setting the top byte keeps the color. */
  lemma Opaque(v: u32)
    ensures BitOr(v, 0xFF00_0000) == v % 0x100_0000 + 0xFF00_0000
  {
    hide Bit, BitOr;
    var low := v % 0x100_0000;
    PowValues();
    assert 0xFF * Pow2(24) == 0xFF00_0000;
    OrDisjoint(low, 0xFF, 24);
    forall k | 0 <= k < 32 ensures Bit(BitOr(v, 0xFF00_0000), k) == Bit(BitOr(low, 0xFF00_0000), k) {
      BitOrBit(v, 0xFF00_0000, k);
      BitOrBit(low, 0xFF00_0000, k);
      if k < 24 { LowBits(v, 24, k); } else { ScaledBit(0xFF, 24, k); AllOnes(8, k - 24); }
    }
    SameWord(BitOr(v, 0xFF00_0000), BitOr(low, 0xFF00_0000));
  }

  lemma {:induction false} AllOnes(n: nat, k: nat)
    requires k < n
    ensures Bit(Pow2(n) - 1, k)
  {
    if k > 0 { AllOnes(n - 1, k - 1); }
  }

  // --- the texture the rasterizer reads ---------------------------------------------------------

  class MemoryTexture {
    const shape: Shape
    const levelBases: array<u32>

    constructor (shape: Shape)
      ensures this.shape == shape && fresh(levelBases) && levelBases.Length == MAX_MIP_LEVELS
    {
      this.shape := shape;
      levelBases := new u32[MAX_MIP_LEVELS](_ => 0);
    }

    ghost predicate Measured()
      reads levelBases
    {
      && levelBases.Length == MAX_MIP_LEVELS
      && forall level :: 0 <= level < MAX_MIP_LEVELS ==> levelBases[level] == LevelBase(shape, level)
    }

    /** Fills the table of level bases, each past the bytes of the levels before it. */
    method MeasureLevels()
      requires levelBases.Length == MAX_MIP_LEVELS
      modifies levelBases
      ensures Measured()
    {
      hide LevelBytes;
      var base := shape.base;
      for level := 0 to MAX_MIP_LEVELS
        invariant base == LevelBase(shape, level)
        invariant forall k :: 0 <= k < level ==> levelBases[k] == LevelBase(shape, k)
      {
        levelBases[level] := base;
        base := WrapAdd(base, LevelBytes(shape, level));
        WrapSum(shape.base, LevelOffset(shape, level), LevelBytes(shape, level));
      }
    }

    /** The address of a texel, its level clamped to the chain. */
    method SwizzledAddress(level: nat, x: u32, y: u32) returns (address: u32)
      requires Measured() && 1 <= shape.levels <= MAX_MIP_LEVELS
      requires 1 <= shape.width <= MAX_TEXTURE_DIMENSION && 1 <= shape.height <= MAX_TEXTURE_DIMENSION
      ensures address == TexelAddress(shape, Min(level, shape.levels - 1), x, y)
    {
      hide Halved, LevelOffset, Interleave;
      var clamped := Min(level, shape.levels - 1);
      var width, height := Halved(shape.width, clamped), Halved(shape.height, clamped);
      HalvedBound(shape.width, clamped);
      HalvedBound(shape.height, clamped);
      assert Pow2(13) == 8192 by { PowValues(); }
      ZerosBound(width, 12);
      ZerosBound(height, 12);
      var index := SwizzleIndex(x, y, TrailingZeros(width), TrailingZeros(height));
      var offset: nat := index as int * 4;
      address := WrapAdd(levelBases[clamped], offset);
      WrapSum(shape.base, LevelOffset(shape, clamped), offset);
    }

    /**
     One texel of a swizzled texture. Nothing outside the texture's object is
     read: there, and where memory does not answer, the texel is transparent.
     */
    method SwizzledTexel(memory: u32 -> Option<u32>, end: u32, hasAlpha: bool, level: nat, x: u32, y: u32) returns (texel: u32)
      requires Measured() && 1 <= shape.levels <= MAX_MIP_LEVELS
      requires 1 <= shape.width <= MAX_TEXTURE_DIMENSION && 1 <= shape.height <= MAX_TEXTURE_DIMENSION
      ensures var address := TexelAddress(shape, Min(level, shape.levels - 1), x, y);
              var stored := if shape.base <= address < end && memory(address).Some? then memory(address).value else 0;
              && texel % 0x100_0000 == stored % 0x100_0000
              && texel / 0x100_0000 == if hasAlpha then stored / 0x100_0000 else 0xFF
    {
      hide TexelAddress, BitOr;
      var address := SwizzledAddress(level, x, y);
      texel := 0;
      if shape.base <= address < end {
        var answer := memory(address);
        if answer.Some? { texel := answer.value; }
      }
      if !hasAlpha {
        Opaque(texel);
        texel := BitOr(texel, 0xFF00_0000);
      }
    }

    lemma {:induction false} ZerosBound(x: nat, n: nat)
      requires 0 < x < Pow2(n + 1)
      ensures TrailingZeros(x) <= n
      decreases n
    {
      if n > 0 && x % 2 == 0 { ZerosBound(x / 2, n - 1); }
    }
  }
}
