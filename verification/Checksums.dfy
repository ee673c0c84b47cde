/**
 The two checksums of a PNG file (png.rs): CRC-32, computed bit by bit and
 resumable, and Adler-32. Beside each its reference: the table-driven CRC of
 section 15 of RFC 2083, and the sums of section 8.2 of RFC 1950.
 */
module Checksums {
  import opened Words
  import opened Bits

  // --- CRC-32 ---------------------------------------------------------------------------

  const POLYNOMIAL: u32 := 0xEDB8_8320

  /** One bit: shift right, and subtract the polynomial when a one falls out. */
  function CrcStep(crc: u32): u32 { BitXor(crc / 2, if crc % 2 == 1 then POLYNOMIAL else 0) }

  function CrcSteps(crc: u32, n: nat): u32 { if n == 0 then crc else CrcStep(CrcSteps(crc, n - 1)) }

  function CrcByte(crc: u32, byte: u8): u32 { CrcSteps(BitXor(crc, byte), 8) }

  function CrcFold(crc: u32, data: seq<u8>): u32 {
    if data == [] then crc else CrcByte(CrcFold(crc, data[..|data| - 1]), data[|data| - 1])
  }

  /** A finished checksum continued over more data. */
  function CrcContinued(previous: u32, data: seq<u8>): u32 { BitNot(CrcFold(BitNot(previous), data)) }

  function Crc(data: seq<u8>): u32 { CrcContinued(0, data) }

  lemma {:induction false} CrcAppend(crc: u32, a: seq<u8>, b: seq<u8>)
    ensures CrcFold(crc, a + b) == CrcFold(CrcFold(crc, a), b)
  {
    hide CrcByte;
    if b == [] {
      assert a + b == a;
    } else {
      CrcAppend(crc, a, b[..|b| - 1]);
      assert (a + b)[..|a + b| - 1] == a + b[..|b| - 1];
    }
  }

  /** Continuing the checksum of one buffer over another gives the checksum of both. */
  lemma CrcChains(a: seq<u8>, b: seq<u8>)
    ensures CrcContinued(Crc(a), b) == Crc(a + b)
  {
    hide CrcFold;
    CrcAppend(BitNot(0), a, b);
  }

  method Crc32Continue(previous: u32, data: seq<u8>) returns (r: u32)
    ensures r == CrcContinued(previous, data)
  {
    hide CrcStep, BitXor;
    var crc := BitNot(previous);
    for k := 0 to |data|
      invariant crc == CrcFold(BitNot(previous), data[..k])
    {
      assert data[..k + 1][..k] == data[..k];
      ghost var before := crc;
      crc := BitXor(crc, data[k]);
      for n := 0 to 8
        invariant crc == CrcSteps(BitXor(before, data[k]), n)
      {
        crc := CrcStep(crc);
      }
    }
    assert data[..|data|] == data;
    r := BitNot(crc);
  }

  method Crc32(data: seq<u8>) returns (r: u32)
    ensures r == Crc(data)
  {
    r := Crc32Continue(0, data);
  }

  // --- the table-driven reference -----------------------------------------------------------

  /** Entry `n` of the table. */
  function TableEntry(n: u8): u32 { CrcSteps(n, 8) }

  function TableByte(crc: u32, byte: u8): u32 { BitXor(TableEntry(BitXor(crc, byte) % 0x100), crc / 0x100) }

  function TableFold(crc: u32, data: seq<u8>): u32 {
    if data == [] then crc else TableByte(TableFold(crc, data[..|data| - 1]), data[|data| - 1])
  }

  function TableCrc(data: seq<u8>): u32 { BitNot(TableFold(BitNot(0), data)) }

  lemma HalfBits(x: nat, k: nat)
    ensures Bit(x / 2, k) == Bit(x, k + 1) && Bit(x, 0) == (x % 2 == 1)
  {}

  /** The bits of one step. */
  lemma StepBit(x: u32, k: nat)
    requires k < 32
    ensures Bit(CrcStep(x), k) == (Bit(x, k + 1) != (Bit(x, 0) && Bit(POLYNOMIAL, k)))
  {
    hide Bit, BitXor;
    HalfBits(x, k);
    BitXorBit(x / 2, if x % 2 == 1 then POLYNOMIAL else 0, k);
    ZeroBit(k);
  }

  /** A step is linear. */
  lemma StepLinear(x: u32, y: u32)
    ensures CrcStep(BitXor(x, y)) == BitXor(CrcStep(x), CrcStep(y))
  {
    hide Bit, BitXor, CrcStep;
    forall k | 0 <= k < 32 ensures Bit(CrcStep(BitXor(x, y)), k) == Bit(BitXor(CrcStep(x), CrcStep(y)), k) {
      StepBit(BitXor(x, y), k);
      StepBit(x, k);
      StepBit(y, k);
      BitXorBit(CrcStep(x), CrcStep(y), k);
      BitXorBit(x, y, k + 1);
      BitXorBit(x, y, 0);
      TopBitClear(x, k + 1);
      TopBitClear(y, k + 1);
    }
    SameWord(CrcStep(BitXor(x, y)), BitXor(CrcStep(x), CrcStep(y)));
  }

  lemma TopBitClear(x: u32, k: nat)
    ensures k >= 32 ==> !Bit(x, k)
  {
    Pow32();
    if k >= 32 { HighBit(x, 32, k); }
  }

  lemma {:induction false} StepsLinear(x: u32, y: u32, n: nat)
    ensures CrcSteps(BitXor(x, y), n) == BitXor(CrcSteps(x, n), CrcSteps(y, n))
  {
    hide BitXor, CrcStep;
    if n > 0 {
      StepsLinear(x, y, n - 1);
      StepLinear(CrcSteps(x, n - 1), CrcSteps(y, n - 1));
    }
  }

  /** Steps over zero bits only shift. */
  lemma {:induction false} StepsShift(y: nat, n: nat, m: nat)
    requires m <= n && y * Pow2(n) < TWO32
    ensures Pow2(n - m) > 0 && y * Pow2(n - m) < TWO32 && CrcSteps(y * Pow2(n), m) == y * Pow2(n - m)
    decreases m
  {
    hide BitXor;
    if m > 0 {
      StepsShift(y, n, m - 1);
      var p := Pow2(n - m);
      assert Pow2(n - (m - 1)) == 2 * p;
      assert y * (2 * p) == 2 * (y * p);
      XorZero(y * p);
    }
  }

  lemma XorZero(x: u32)
    ensures BitXor(x, 0) == x
  {
    hide Bit, BitXor;
    forall k | 0 <= k < 32 ensures Bit(BitXor(x, 0), k) == Bit(x, k) {
      BitXorBit(x, 0, k);
      ZeroBit(k);
    }
    SameWord(BitXor(x, 0), x);
  }

  /** A word is its low byte xored onto the rest. */
  lemma SplitByte(x: u32)
    ensures x / 0x100 * 0x100 < TWO32 && x == BitXor(x % 0x100, x / 0x100 * 0x100)
  {
    hide Bit, BitXor, Pow2;
    PowValues();
    var low, high: u32 := x % 0x100, x / 0x100 * 0x100;
    forall k | 0 <= k < 32 ensures Bit(BitXor(low, high), k) == Bit(x, k) {
      BitXorBit(low, high, k);
      ScaledBit(x / 0x100, 8, k);
      LowBits(x, 8, k);
      if k >= 8 { ShiftedBit(x, 8, k - 8); }
    }
    SameWord(BitXor(low, high), x);
  }

  /** Xoring a byte leaves the upper bytes alone. */
  lemma UpperKept(crc: u32, byte: u8)
    ensures BitXor(crc, byte) / 0x100 == crc / 0x100
  {
    hide Bit, BitXor, Pow2;
    PowValues();
    var x, y := BitXor(crc, byte) / 0x100, crc / 0x100;
    forall k | 0 <= k < 32 ensures Bit(x, k) == Bit(y, k) {
      ShiftedBit(BitXor(crc, byte), 8, k);
      ShiftedBit(crc, 8, k);
      BitXorBit(crc, byte, k + 8);
      HighBit(byte, 8, k + 8);
      TopBitClear(crc, k + 8);
    }
    SameWord(x, y);
  }

  /** Eight bitwise steps are one table step. */
  lemma ByteByTable(crc: u32, byte: u8)
    ensures CrcByte(crc, byte) == TableByte(crc, byte)
  {
    hide Bit, BitXor, Pow2, CrcSteps;
    var x := BitXor(crc, byte);
    SplitByte(x);
    UpperKept(crc, byte);
    StepsLinear(x % 0x100, x / 0x100 * 0x100, 8);
    PowValues();
    PowZero();
    StepsShift(x / 0x100, 8, 8);
  }

  lemma PowZero()
    ensures Pow2(0) == 1
  {}

  lemma {:induction false} FoldByTable(crc: u32, data: seq<u8>)
    ensures CrcFold(crc, data) == TableFold(crc, data)
  {
    hide CrcByte, TableByte;
    if data != [] {
      FoldByTable(crc, data[..|data| - 1]);
      ByteByTable(CrcFold(crc, data[..|data| - 1]), data[|data| - 1]);
    }
  }

  /** The bitwise checksum is the table-driven one. */
  lemma CrcByTable(data: seq<u8>)
    ensures Crc(data) == TableCrc(data)
  {
    hide CrcFold, TableFold;
    FoldByTable(BitNot(0), data);
  }

  // --- Adler-32 ----------------------------------------------------------------------------------

  const ADLER_MODULUS: nat := 65521

  function Sum(data: seq<u8>): nat { if data == [] then 0 else data[0] + Sum(data[1..]) }

  /** Each byte as often as there are bytes from it on: the first `n` times, the last once. */
  function WeightedSum(data: seq<u8>): nat { if data == [] then 0 else |data| * data[0] + WeightedSum(data[1..]) }

  /** The two sums of RFC 1950, reduced once at the end. */
  function Adler(data: seq<u8>): (r: u32) {
    (|data| + WeightedSum(data)) % ADLER_MODULUS * 0x1_0000 + (1 + Sum(data)) % ADLER_MODULUS
  }

  lemma {:induction false} SumsAppend(data: seq<u8>, byte: u8)
    ensures Sum(data + [byte]) == Sum(data) + byte
    ensures WeightedSum(data + [byte]) == WeightedSum(data) + Sum(data) + byte
  {
    if data == [] {
      assert data + [byte] == [byte];
    } else {
      SumsAppend(data[1..], byte);
      assert (data + [byte])[1..] == data[1..] + [byte];
      assert (|data| + 1) * data[0] == |data| * data[0] + data[0];
    }
  }

  lemma ModAdd(a: nat, b: nat)
    ensures (a % ADLER_MODULUS + b) % ADLER_MODULUS == (a + b) % ADLER_MODULUS
    ensures (b + a % ADLER_MODULUS) % ADLER_MODULUS == (b + a) % ADLER_MODULUS
  {}

  /** Reducing both sums after every byte gives the same. */
  method Adler32(data: seq<u8>) returns (r: u32)
    ensures r == Adler(data)
  {
    hide Sum, WeightedSum;
    var low, high := 1, 0;
    NoData();
    for k := 0 to |data|
      invariant low == (1 + Sum(data[..k])) % ADLER_MODULUS
      invariant high == (k + WeightedSum(data[..k])) % ADLER_MODULUS
    {
      SumsAppend(data[..k], data[k]);
      assert data[..k + 1] == data[..k] + [data[k]];
      AdlerStep(k, Sum(data[..k]), WeightedSum(data[..k]), data[k]);
      low := (low + data[k]) % ADLER_MODULUS;
      high := (high + low) % ADLER_MODULUS;
    }
    assert data[..|data|] == data;
    r := high * 0x1_0000 + low;
  }

  lemma NoData()
    ensures Sum([]) == 0 && WeightedSum([]) == 0
  {}

  lemma AdlerStep(k: nat, sum: nat, weighted: nat, byte: u8)
    ensures ((1 + sum) % ADLER_MODULUS + byte) % ADLER_MODULUS == (1 + (sum + byte)) % ADLER_MODULUS
    ensures ((k + weighted) % ADLER_MODULUS + (1 + (sum + byte)) % ADLER_MODULUS) % ADLER_MODULUS ==
            (k + 1 + (weighted + sum + byte)) % ADLER_MODULUS
  {
    ModAdd(1 + sum, byte);
    ModAdd(k + weighted, (1 + (sum + byte)) % ADLER_MODULUS);
    ModAdd(1 + (sum + byte), k + weighted);
  }

  // --- the published checksums ---------------------------------------------------------------------

  /** The exponents of the CRC-32 polynomial below 32, as the PNG specification lists them. */
  predicate Exponent(e: int) { e in {0, 1, 2, 4, 5, 7, 8, 10, 11, 12, 16, 22, 23, 26} }

  /** The constant is that polynomial with its terms reversed: bit `k` is exponent `31 - k`. */
  lemma PolynomialMeans(k: nat)
    requires k < 32
    ensures Bit(POLYNOMIAL, k) <==> Exponent(31 - k)
  {
    hide Bit, Pow2;
    var j := k % 8;
    BytePowers();
    if k < 8 {
      BitsOf20(j);
    } else if k < 16 {
      ByteBit(8, 0x100, 0xED_B883, j);
      BitsOf83(j);
    } else if k < 24 {
      ByteBit(16, 0x1_0000, 0xEDB8, j);
      BitsOfB8(j);
    } else {
      ByteBit(24, 0x100_0000, 0xED, j);
      BitsOfED(j);
    }
  }

  lemma BytePowers()
    ensures Pow2(8) == 0x100 && Pow2(16) == 0x1_0000 && Pow2(24) == 0x100_0000
  {
    PowValues();
    PowStep(16);
    PowStep(20);
  }

  lemma ByteBit(low: nat, unit: nat, part: nat, j: nat)
    requires unit == Pow2(low) && part == POLYNOMIAL / unit
    ensures Bit(POLYNOMIAL, low + j) == Bit(part, j)
  {
    hide Bit, Pow2;
    ShiftedBit(POLYNOMIAL, low, j);
  }

  lemma BitsOf20(j: nat)
    requires j < 8
    ensures Bit(0xEDB88320, j) <==> j in {5}
  {
    assert !Bit(0xEDB88320, 0);
    assert !Bit(0xEDB88320, 1);
    assert !Bit(0xEDB88320, 2);
    assert !Bit(0xEDB88320, 3);
    assert !Bit(0xEDB88320, 4);
    assert Bit(0xEDB88320, 5);
    assert !Bit(0xEDB88320, 6);
    assert !Bit(0xEDB88320, 7);
  }

  lemma BitsOf83(j: nat)
    requires j < 8
    ensures Bit(0xEDB883, j) <==> j in {0, 1, 7}
  {
    assert Bit(0xEDB883, 0);
    assert Bit(0xEDB883, 1);
    assert !Bit(0xEDB883, 2);
    assert !Bit(0xEDB883, 3);
    assert !Bit(0xEDB883, 4);
    assert !Bit(0xEDB883, 5);
    assert !Bit(0xEDB883, 6);
    assert Bit(0xEDB883, 7);
  }

  lemma BitsOfB8(j: nat)
    requires j < 8
    ensures Bit(0xEDB8, j) <==> j in {3, 4, 5, 7}
  {
    assert !Bit(0xEDB8, 0);
    assert !Bit(0xEDB8, 1);
    assert !Bit(0xEDB8, 2);
    assert Bit(0xEDB8, 3);
    assert Bit(0xEDB8, 4);
    assert Bit(0xEDB8, 5);
    assert !Bit(0xEDB8, 6);
    assert Bit(0xEDB8, 7);
  }

  lemma BitsOfED(j: nat)
    requires j < 8
    ensures Bit(0xED, j) <==> j in {0, 2, 3, 5, 6, 7}
  {
    assert Bit(0xED, 0);
    assert !Bit(0xED, 1);
    assert Bit(0xED, 2);
    assert Bit(0xED, 3);
    assert !Bit(0xED, 4);
    assert Bit(0xED, 5);
    assert Bit(0xED, 6);
    assert Bit(0xED, 7);
  }

  /** The register starts with all ones and its complement is the checksum: four bytes of ones cancel the start. */
  lemma CrcOfOnes()
    ensures Crc([0xFF, 0xFF, 0xFF, 0xFF]) == 0xFFFF_FFFF
  {
    hide BitXor, CrcSteps;
    var data: seq<u8> := [0xFF, 0xFF, 0xFF, 0xFF];
    AllOnes();
    OnesOff(0xFF_FFFF);
    OnesOff(0xFFFF);
    OnesOff(0xFF);
    OnesOff(0);
    CrcAppend(0xFFFF_FFFF, [0xFF, 0xFF], [0xFF, 0xFF]);
    assert data == [0xFF, 0xFF] + [0xFF, 0xFF];
    FoldTwo(0xFFFF_FFFF, 0xFF, 0xFF);
    FoldTwo(0xFFFF, 0xFF, 0xFF);
  }

  lemma FoldTwo(crc: u32, a: u8, b: u8)
    ensures CrcFold(crc, [a, b]) == CrcByte(CrcByte(crc, a), b)
  {
    hide CrcByte;
    CrcAppend(crc, [a], [b]);
    assert [a, b] == [a] + [b];
    FoldOne(crc, a);
    FoldOne(CrcByte(crc, a), b);
  }

  lemma FoldOne(crc: u32, a: u8)
    ensures CrcFold(crc, [a]) == CrcByte(crc, a)
  {
    hide CrcByte;
    assert [a][..0] == [] && [a][1..] == [];
  }

  /** Eight ones below a number are shifted out. */
  lemma OnesOff(x: u32)
    requires x * 0x100 + 0xFF < TWO32
    ensures CrcByte(x * 0x100 + 0xFF, 0xFF) == x
  {
    hide Bit, BitXor;
    var w: u32 := x * 0x100 + 0xFF;
    PowValues();
    forall k | 0 <= k < 32 ensures Bit(BitXor(w, 0xFF), k) == Bit(x * 0x100, k) {
      BitXorBit(w, 0xFF, k);
      ScaledBit(x, 8, k);
      LowBits(w, 8, k);
      if k >= 8 { HighBit(0xFF, 8, k); ShiftedBit(w, 8, k - 8); }
    }
    SameWord(BitXor(w, 0xFF), x * 0x100);
    StepsShift(x, 8, 8);
  }

  lemma AllOnes()
    ensures BitNot(0) == 0xFFFF_FFFF && BitNot(0xFFFF_FFFF) == 0
  {}

  /** Adler-32 byte by byte, as RFC 1950 gives it: one for nothing, then both sums modulo 65521. */
  lemma AdlerNext(data: seq<u8>, byte: u8)
    ensures Adler([]) == 1
    ensures var low, high := Adler(data) % 0x1_0000, Adler(data) / 0x1_0000;
            var next := (low + byte) % 65521;
            Adler(data + [byte]) == (high + next) % 65521 * 0x1_0000 + next
  {
    hide Sum, WeightedSum;
    NoData();
    SumsAppend(data, byte);
    AdlerStep(|data|, Sum(data), WeightedSum(data), byte);
    var low, high := (1 + Sum(data)) % 65521, (|data| + WeightedSum(data)) % 65521;
    DivUnique(Adler(data), 0x1_0000, high, low);
  }
}
