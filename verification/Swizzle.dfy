/**
 Morton addressing of swizzled textures (nv2a.rs, `swizzle_index`): the bits of
 the two coordinates interleaved, the longer one's remaining bits on top.
 */
module Swizzle {
  import opened Words
  import opened Bits

  /** The x coordinate is next: it is its turn, or the other is used up. */
  predicate TakesX(w: nat, h: nat, xTurn: bool) { h == 0 || (xTurn && w > 0) }

  /** The interleaving, lowest bits first, the coordinates taking turns while both have bits. */
  function Interleave(x: nat, y: nat, w: nat, h: nat, xTurn: bool): nat
    decreases w + h
  {
    if w == 0 && h == 0 then 0
    else if TakesX(w, h, xTurn) then x % 2 + 2 * Interleave(x / 2, y, w - 1, h, false)
    else y % 2 + 2 * Interleave(x, y / 2, w, h - 1, true)
  }

  datatype Texel = Texel(x: nat, y: nat)

  /** The texel at an index. */
  function Separate(index: nat, w: nat, h: nat, xTurn: bool): Texel
    decreases w + h
  {
    if w == 0 && h == 0 then Texel(0, 0)
    else if TakesX(w, h, xTurn) then
      var rest := Separate(index / 2, w - 1, h, false);
      Texel(index % 2 + 2 * rest.x, rest.y)
    else
      var rest := Separate(index / 2, w, h - 1, true);
      Texel(rest.x, index % 2 + 2 * rest.y)
  }

  lemma LowDigit(b: nat, rest: nat)
    requires b < 2
    ensures (b + 2 * rest) % 2 == b && (b + 2 * rest) / 2 == rest
  {}

  /** Every texel of the image has its own index, below the image's size. */
  lemma {:induction false} SeparateInterleave(x: nat, y: nat, w: nat, h: nat, xTurn: bool)
    requires x < Pow2(w) && y < Pow2(h)
    ensures Interleave(x, y, w, h, xTurn) < Pow2(w + h)
    ensures Separate(Interleave(x, y, w, h, xTurn), w, h, xTurn) == Texel(x, y)
    decreases w + h
  {
    if w == 0 && h == 0 {
    } else if TakesX(w, h, xTurn) {
      SeparateInterleave(x / 2, y, w - 1, h, false);
      LowDigit(x % 2, Interleave(x / 2, y, w - 1, h, false));
    } else {
      SeparateInterleave(x, y / 2, w, h - 1, true);
      LowDigit(y % 2, Interleave(x, y / 2, w, h - 1, true));
    }
  }

  /** And every index below the image's size is some texel's. */
  lemma {:induction false} InterleaveSeparate(index: nat, w: nat, h: nat, xTurn: bool)
    requires index < Pow2(w + h)
    ensures Separate(index, w, h, xTurn).x < Pow2(w) && Separate(index, w, h, xTurn).y < Pow2(h)
    ensures Interleave(Separate(index, w, h, xTurn).x, Separate(index, w, h, xTurn).y, w, h, xTurn) == index
    decreases w + h
  {
    if w == 0 && h == 0 {
    } else if TakesX(w, h, xTurn) {
      InterleaveSeparate(index / 2, w - 1, h, false);
    } else {
      InterleaveSeparate(index / 2, w, h - 1, true);
    }
  }

  function Min(a: nat, b: nat): nat { if a < b then a else b }

  /**
   Where the coordinates' bits go: bit k of one lands above its own k lower bits
   and as many of the other's as were placed before it.
   */
  lemma {:induction false} InterleavedBits(x: nat, y: nat, w: nat, h: nat, xTurn: bool, k: nat)
    ensures k < w ==> Bit(Interleave(x, y, w, h, xTurn), k + Min(if xTurn then k else k + 1, h)) == Bit(x, k)
    ensures k < h ==> Bit(Interleave(x, y, w, h, xTurn), k + Min(if xTurn then k + 1 else k, w)) == Bit(y, k)
    decreases w + h
  {
    hide Bit;
    if w == 0 && h == 0 {
    } else if TakesX(w, h, xTurn) {
      var rest := Interleave(x / 2, y, w - 1, h, false);
      if k > 0 { InterleavedBits(x / 2, y, w - 1, h, false, k - 1); }
      InterleavedBits(x / 2, y, w - 1, h, false, k);
      OneBit(x, rest, k + Min(if xTurn then k else k + 1, h));
      OneBit(x, rest, k + Min(if xTurn then k + 1 else k, w));
      HalfBit(x, k);
    } else {
      var rest := Interleave(x, y / 2, w, h - 1, true);
      if k > 0 { InterleavedBits(x, y / 2, w, h - 1, true, k - 1); }
      InterleavedBits(x, y / 2, w, h - 1, true, k);
      OneBit(y, rest, k + Min(if xTurn then k else k + 1, h));
      OneBit(y, rest, k + Min(if xTurn then k + 1 else k, w));
      HalfBit(y, k);
    }
  }

  lemma HalfBit(x: nat, k: nat)
    ensures k == 0 ==> Bit(x, k) == (x % 2 == 1)
    ensures k > 0 ==> Bit(x, k) == Bit(x / 2, k - 1)
  {}

  lemma OneBit(a: nat, rest: nat, k: nat)
    ensures k == 0 ==> Bit(a % 2 + 2 * rest, k) == (a % 2 == 1)
    ensures k > 0 ==> Bit(a % 2 + 2 * rest, k) == Bit(rest, k - 1)
  {}

  // --- the loop ----------------------------------------------------------------------

  /** A number shifted right. */
  function Shr(x: nat, n: nat): nat {
    if n == 0 then x else Shr(x / 2, n - 1)
  }

  lemma {:induction false} ShrNext(x: nat, n: nat)
    ensures Shr(x, n + 1) == Shr(x, n) / 2
  {
    if n > 0 { ShrNext(x / 2, n - 1); }
  }

  /** Setting a bit above a number's own bits is adding it. */
  lemma OrAbove(index: u32, b: nat, n: nat)
    requires index < Pow2(n) && b < 2 && n < 32
    ensures b * Pow2(n) < TWO32 && BitOr(index, b * Pow2(n)) == index + b * Pow2(n) < Pow2(n + 1)
  {
    hide Bit, BitOr, Pow2;
    PowDoubles(n);
    PowSmaller(n + 1, 32);
    Pow32();
    assert b * Pow2(n) == 0 || b * Pow2(n) == Pow2(n);
    OrDisjoint(index, b, n);
  }

  lemma PowDoubles(n: nat)
    ensures Pow2(n + 1) == 2 * Pow2(n)
  {}

  /** The index built so far, with what is still to be placed above it. */
  predicate Building(total: nat, index: nat, x: nat, y: nat, xBit: nat, yBit: nat, w: nat, h: nat, xTurn: bool) {
    && xBit <= w && yBit <= h && index < Pow2(xBit + yBit)
    && total == index + Pow2(xBit + yBit) * Interleave(Shr(x, xBit), Shr(y, yBit), w - xBit, h - yBit, xTurn)
  }

  lemma PlaceX(total: nat, index: u32, x: u32, y: u32, xBit: nat, yBit: nat, w: nat, h: nat, xTurn: bool)
    requires Building(total, index, x, y, xBit, yBit, w, h, xTurn) && xBit < w && (xTurn || yBit == h) && w + h <= 32
    ensures var bit := Shr(x, xBit) % 2 * Pow2(xBit + yBit);
            bit < TWO32 && Building(total, BitOr(index, bit), x, y, xBit + 1, yBit, w, h, false)
  {
    hide Pow2, BitOr, Shr;
    var b, p := Shr(x, xBit) % 2, Pow2(xBit + yBit);
    OrAbove(index, b, xBit + yBit);
    ShrNext(x, xBit);
    PowDoubles(xBit + yBit);
    Distribute(p, b, Interleave(Shr(x, xBit + 1), Shr(y, yBit), w - xBit - 1, h - yBit, false));
  }

  lemma PlaceY(total: nat, index: u32, x: u32, y: u32, xBit: nat, yBit: nat, w: nat, h: nat, xTurn: bool)
    requires Building(total, index, x, y, xBit, yBit, w, h, xTurn) && yBit < h && (!xTurn || xBit == w) && w + h <= 32
    ensures var bit := Shr(y, yBit) % 2 * Pow2(xBit + yBit);
            bit < TWO32 && Building(total, BitOr(index, bit), x, y, xBit, yBit + 1, w, h, true)
  {
    hide Pow2, BitOr, Shr;
    var b, p := Shr(y, yBit) % 2, Pow2(xBit + yBit);
    OrAbove(index, b, xBit + yBit);
    ShrNext(y, yBit);
    PowDoubles(xBit + yBit);
    Distribute(p, b, Interleave(Shr(x, xBit), Shr(y, yBit + 1), w - xBit, h - yBit - 1, true));
  }

  lemma Distribute(p: nat, b: nat, rest: nat)
    ensures p * (b + 2 * rest) == b * p + (2 * p) * rest
  {}

  /** With one coordinate used up the turn no longer matters. */
  lemma TurnFree(total: nat, index: nat, x: nat, y: nat, xBit: nat, w: nat, h: nat)
    requires Building(total, index, x, y, xBit, h, w, h, false)
    ensures Building(total, index, x, y, xBit, h, w, h, true)
  {
    hide Shr, Pow2;
  }

  lemma Started(x: nat, y: nat, w: nat, h: nat)
    ensures Building(Interleave(x, y, w, h, true), 0, x, y, 0, 0, w, h, true)
  {}

  lemma Finished(total: nat, index: nat, x: nat, y: nat, w: nat, h: nat)
    requires Building(total, index, x, y, w, h, w, h, true)
    ensures index == total
  {
    hide Shr, Pow2;
  }

  /** The index of a texel: the loop places the low bits of both coordinates alternately. */
  method SwizzleIndex(x: u32, y: u32, widthBits: nat, heightBits: nat) returns (index: u32)
    requires widthBits + heightBits <= 32
    ensures index == Interleave(x, y, widthBits, heightBits, true)
  {
    hide Pow2, Interleave, BitOr, Building, Shr;
    index := 0;
    var bit, xBit, yBit := 0, 0, 0;
    ghost var total := Interleave(x, y, widthBits, heightBits, true);
    Started(x, y, widthBits, heightBits);
    while xBit < widthBits || yBit < heightBits
      invariant 0 <= xBit <= widthBits && 0 <= yBit <= heightBits && bit == xBit + yBit
      invariant Building(total, index, x, y, xBit, yBit, widthBits, heightBits, true)
      decreases widthBits + heightBits - bit
    {
      if xBit < widthBits {
        PlaceX(total, index, x, y, xBit, yBit, widthBits, heightBits, true);
        index := BitOr(index, Shr(x, xBit) % 2 * Pow2(bit));
        xBit, bit := xBit + 1, bit + 1;
        if yBit == heightBits { TurnFree(total, index, x, y, xBit, widthBits, heightBits); }
        if yBit < heightBits {
          PlaceY(total, index, x, y, xBit, yBit, widthBits, heightBits, false);
        }
      } else {
        PlaceY(total, index, x, y, xBit, yBit, widthBits, heightBits, true);
      }
      if yBit < heightBits {
        index := BitOr(index, Shr(y, yBit) % 2 * Pow2(bit));
        yBit, bit := yBit + 1, bit + 1;
      }
    }
    Finished(total, index, x, y, widthBits, heightBits);
  }
}
