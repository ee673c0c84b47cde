/** Bitwise operations on words, and the reading of a word as its bits. */
module Bits {
  import opened Words

  function Pow2(k: nat): (p: nat)
    ensures p > 0
  {
    if k == 0 then 1 else 2 * Pow2(k - 1)
  }

  /** Bit `k` of a number. */
  predicate Bit(x: nat, k: nat) {
    if k == 0 then x % 2 == 1 else Bit(x / 2, k - 1)
  }

  function BitOf(condition: bool): nat { if condition then 1 else 0 }

  /** The bits of `b + 2 * y`: `b`, then those of `y`. */
  lemma Peel(b: bool, y: nat, k: int)
    ensures k == 0 ==> Bit(BitOf(b) + 2 * y, k) == b
    ensures k > 0 ==> Bit(BitOf(b) + 2 * y, k) == Bit(y, k - 1)
  {}

  /** A bitwise operation over `n` bits. */
  function Bitwise(op: (bool, bool) -> bool, x: nat, y: nat, n: nat): nat
    decreases n
  {
    if n == 0 then 0 else
    BitOf(op(x % 2 == 1, y % 2 == 1)) + 2 * Bitwise(op, x / 2, y / 2, n - 1)
  }

  lemma {:induction false} BitwiseBit(op: (bool, bool) -> bool, x: nat, y: nat, n: nat, k: nat)
    ensures Bitwise(op, x, y, n) < Pow2(n)
    ensures Bit(Bitwise(op, x, y, n), k) == (k < n && op(Bit(x, k), Bit(y, k)))
    decreases n
  {
    if n == 0 {
      ZeroBit(k);
    } else {
      var rest := Bitwise(op, x / 2, y / 2, n - 1);
      BitwiseBit(op, x / 2, y / 2, n - 1, if k == 0 then 0 else k - 1);
      Peel(op(x % 2 == 1, y % 2 == 1), rest, k);
      hide Bitwise;
    }
  }

  lemma {:induction false} ZeroBit(k: nat)
    ensures !Bit(0, k)
  {
    if k > 0 { ZeroBit(k - 1); }
  }

  /** Two `n`-bit numbers with the same bits are the same. */
  lemma {:induction false} SameBits(x: nat, y: nat, n: nat)
    requires x < Pow2(n) && y < Pow2(n)
    requires forall k :: 0 <= k < n ==> Bit(x, k) == Bit(y, k)
    ensures x == y
    decreases n
  {
    if n > 0 {
      forall k | 0 <= k < n - 1 ensures Bit(x / 2, k) == Bit(y / 2, k) {
        assert Bit(x, k + 1) == Bit(y, k + 1);
      }
      SameBits(x / 2, y / 2, n - 1);
      assert Bit(x, 0) == Bit(y, 0);
    }
  }

  // --- 32-bit words --------------------------------------------------------

  lemma Pow32()
    ensures Pow2(32) == TWO32
  {
    PowValues();
  }

  function BitAnd(x: u32, y: u32): u32 {
    Pow32();
    BitwiseBit((a, b) => a && b, x, y, 32, 0);
    Bitwise((a, b) => a && b, x, y, 32)
  }

  function BitOr(x: u32, y: u32): u32 {
    Pow32();
    BitwiseBit((a, b) => a || b, x, y, 32, 0);
    Bitwise((a, b) => a || b, x, y, 32)
  }

  function BitXor(x: u32, y: u32): u32 {
    Pow32();
    BitwiseBit((a, b) => a != b, x, y, 32, 0);
    Bitwise((a, b) => a != b, x, y, 32)
  }

  function BitNot(x: u32): u32 {
    TWO32 - 1 - x
  }

  lemma BitAndBit(x: u32, y: u32, k: nat)
    ensures Bit(BitAnd(x, y), k) == (k < 32 && Bit(x, k) && Bit(y, k))
  {
    BitwiseBit((a, b) => a && b, x, y, 32, k);
  }

  lemma BitOrBit(x: u32, y: u32, k: nat)
    ensures Bit(BitOr(x, y), k) == (k < 32 && (Bit(x, k) || Bit(y, k)))
  {
    BitwiseBit((a, b) => a || b, x, y, 32, k);
  }

  lemma BitXorBit(x: u32, y: u32, k: nat)
    ensures Bit(BitXor(x, y), k) == (k < 32 && Bit(x, k) != Bit(y, k))
  {
    BitwiseBit((a, b) => a != b, x, y, 32, k);
  }

  lemma {:induction false} ComplementBit(x: nat, n: nat, k: nat)
    requires x < Pow2(n)
    ensures Bit(Pow2(n) - 1 - x, k) == (k < n && !Bit(x, k))
    decreases n
  {
    if n == 0 {
      ZeroBit(k);
    } else {
      assert (Pow2(n) - 1 - x) / 2 == Pow2(n - 1) - 1 - x / 2;
      ComplementBit(x / 2, n - 1, if k == 0 then 0 else k - 1);
    }
  }

  lemma BitNotBit(x: u32, k: nat)
    ensures Bit(BitNot(x), k) == (k < 32 && !Bit(x, k))
  {
    Pow32();
    ComplementBit(x, 32, k);
  }

  /** Words with the same bits are the same word. */
  lemma SameWord(x: u32, y: u32)
    requires forall k :: 0 <= k < 32 ==> Bit(x, k) == Bit(y, k)
    ensures x == y
  {
    Pow32();
    SameBits(x, y, 32);
  }

  /** The top bit of an `n + 1`-bit number. */
  lemma {:induction false} TopBit(x: nat, n: nat)
    requires x < Pow2(n + 1)
    ensures Bit(x, n) <==> x >= Pow2(n)
  {
    if n > 0 { TopBit(x / 2, n - 1); }
  }

  lemma PowStep(k: nat)
    ensures Pow2(k + 4) == 16 * Pow2(k)
  {
    assert Pow2(k + 2) == 4 * Pow2(k);
  }

  lemma PowValues()
    ensures Pow2(7) == 0x80 && Pow2(8) == 0x100 && Pow2(15) == 0x8000 && Pow2(16) == 0x1_0000
    ensures Pow2(31) == 0x8000_0000 && Pow2(32) == TWO32
  {
    hide Pow2;
    PowSmall();
    PowStep(3); PowStep(7); PowStep(11); PowStep(15); PowStep(19); PowStep(23); PowStep(27);
    PowStep(4); PowStep(8); PowStep(12); PowStep(16); PowStep(20); PowStep(24); PowStep(28);
  }

  lemma PowSmall()
    ensures Pow2(3) == 8 && Pow2(4) == 16
  {}

  lemma SignBit32(x: u32)
    ensures Bit(x, 31) <==> x >= 0x8000_0000
  {
    Pow32();
    TopBit(x, 31);
  }

  lemma Bit4(x: nat)
    ensures Bit(x, 4) <==> x / 16 % 2 == 1
  {
    assert Bit(x, 4) == Bit(x / 2 / 2, 2);
    assert Bit(x / 2 / 2, 2) == Bit(x / 2 / 2 / 2 / 2, 0);
    assert x / 2 / 2 / 2 / 2 == x / 16;
  }

  /** How many of the low `n` bits are set. */
  function CountOnes(x: nat, n: nat): nat
    decreases n
  {
    if n == 0 then 0 else x % 2 + CountOnes(x / 2, n - 1)
  }

  /** Adding a multiple of `2^n` leaves the low `n` bits alone. */
  lemma {:induction false} LowBit(x: nat, y: nat, n: nat, k: nat)
    requires x < Pow2(n) && k < n
    ensures Bit(x + Pow2(n) * y, k) == Bit(x, k)
    decreases n
  {
    var p := Pow2(n - 1);
    assert Pow2(n) * y == 2 * (p * y);
    if k > 0 {
      assert (x + Pow2(n) * y) / 2 == x / 2 + p * y;
      LowBit(x / 2, y, n - 1, k - 1);
    }
  }

  /** The bits of a quotient by a power of two. */
  lemma {:induction false} ShiftedBit(x: nat, n: nat, k: nat)
    ensures x / Pow2(n) >= 0 && Bit(x / Pow2(n), k) == Bit(x, k + n)
    decreases n
  {
    if n == 0 {
      assert x / Pow2(0) == x;
    } else {
      DivTwice(x, Pow2(n - 1));
      ShiftedBit(x / 2, n - 1, k);
    }
  }

  lemma DivTwice(x: nat, p: nat)
    requires p > 0
    ensures x / (2 * p) == x / 2 / p
  {
    var q, r := x / 2 / p, x / 2 % p;
    assert x / 2 == q * p + r;
    var b := x % 2;
    assert x == 2 * (q * p + r) + b;
    assert x == (2 * p) * q + (2 * r + b);
    assert 0 <= 2 * r + b < 2 * p;
    DivUnique(x, 2 * p, q, 2 * r + b);
  }

  lemma DivUnique(x: int, d: int, q: int, r: int)
    requires d > 0 && x == d * q + r && 0 <= r < d
    ensures x / d == q && x % d == r
  {
    DivMod(x, d);
    assert d * (q - x / d) == d * q - d * (x / d);
    SmallMultiple(d, q - x / d, x % d - r);
  }

  lemma DivMod(x: int, d: int)
    requires d > 0
    ensures x == d * (x / d) + x % d && 0 <= x % d < d
  {}

  lemma SmallMultiple(d: int, k: int, z: int)
    requires d > 0 && d * k == z && -d < z < d
    ensures k == 0
  {
    if k >= 1 { MulGrows(d, k); }
    if k <= -1 { MulGrows(d, -k); }
  }

  lemma MulGrows(d: int, k: int)
    requires d > 0 && k >= 1
    ensures d * k >= d
  {}

  /** The bits of a product by a power of two. */
  lemma {:induction false} ScaledBit(x: nat, n: nat, k: nat)
    ensures Bit(x * Pow2(n), k) == (k >= n && Bit(x, k - n))
    decreases n
  {
    if n > 0 {
      var y := x * Pow2(n - 1);
      assert x * Pow2(n) == 2 * y;
      if k > 0 { ScaledBit(x, n - 1, k - 1); }
    }
  }

  /** The bits of a remainder by a power of two. */
  lemma {:induction false} LowBits(x: nat, n: nat, k: nat)
    ensures x % Pow2(n) < Pow2(n)
    ensures Bit(x % Pow2(n), k) == (k < n && Bit(x, k))
    decreases n
  {
    hide Bit, Pow2;
    DivMod(x, Pow2(n));
    if k < n {
      LowBit(x % Pow2(n), x / Pow2(n), n, k);
    } else {
      HighBit(x % Pow2(n), n, k);
    }
  }

  /** An `n`-bit number has no bit above `n`. */
  lemma {:induction false} HighBit(x: nat, n: nat, k: nat)
    requires x < Pow2(n) && k >= n
    ensures !Bit(x, k)
    decreases n
  {
    if n == 0 { ZeroBit(k); } else { HighBit(x / 2, n - 1, k - 1); }
  }

  /** Or-ing numbers that share no bits adds them. */
  lemma OrDisjoint(low: u32, high: nat, n: nat)
    requires low < Pow2(n) && low + high * Pow2(n) < TWO32
    ensures high * Pow2(n) < TWO32 && BitOr(low, high * Pow2(n)) == low + high * Pow2(n)
  {
    hide Bit, BitOr, Pow2;
    assert high * Pow2(n) == Pow2(n) * high && high * Pow2(n) < TWO32;
    var shifted, sum := high * Pow2(n), low + high * Pow2(n);
    forall k | 0 <= k < 32 ensures Bit(BitOr(low, shifted), k) == Bit(sum, k) {
      BitOrBit(low, shifted, k);
      ScaledBit(high, n, k);
      if k < n {
        LowBit(low, high, n, k);
      } else {
        HighBit(low, n, k);
        ShiftedBit(sum, n, k - n);
        DivUnique(sum, Pow2(n), high, low);
      }
    }
    SameWord(BitOr(low, shifted), sum);
  }

  lemma {:induction false} PowSmaller(j: nat, k: nat)
    requires j <= k
    ensures Pow2(j) <= Pow2(k)
  {
    if j < k { PowSmaller(j, k - 1); }
  }

  // --- wrapping sums ---------------------------------------------------------

  lemma WrapZero(a: u32)
    ensures WrapAdd(a, 0) == a
  {}

  lemma WrapSum(a: u32, x: int, y: int)
    ensures WrapAdd(WrapAdd(a, x), y) == WrapAdd(a, x + y)
  {
    DivMod(a + x, TWO32);
    DivMod(WrapAdd(a, x) + y, TWO32);
    DivUnique(a + x + y, TWO32, (a + x) / TWO32 + (WrapAdd(a, x) + y) / TWO32, WrapAdd(WrapAdd(a, x), y));
  }
}
