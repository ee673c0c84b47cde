/**
 Frame digests (golden.rs): 64-bit FNV-1a over a frame's dimensions and pixels,
 printed as sixteen hexadecimal digits.
 */
module FrameDigest {
  import opened Words
  import opened Bits

  const TWO64: nat := 0x1_0000_0000_0000_0000
  const FNV_OFFSET: u64 := 0xCBF2_9CE4_8422_2325
  const FNV_PRIME: nat := 0x0000_0100_0000_01B3

  /** The prime's inverse modulo 2^64; the prime is odd, so it has one. */
  const FNV_INVERSE: nat := 0xCE96_5057_AFF6_957B

  /** Multiplication by the prime, wrapping. */
  function Scramble(x: u64): u64 { x * FNV_PRIME % TWO64 }

  function ByteXor(a: u8, b: u8): u8 {
    BitwiseBit((p, q) => p != q, a, b, 8, 0);
    PowValues();
    Bitwise((p, q) => p != q, a, b, 8)
  }

  /** The byte xored into the hash. */
  function Mix(hash: u64, byte: u8): u64 { WithLowByte(hash, ByteXor(hash % 0x100, byte)) }

  function WithLowByte(hash: u64, low: u8): u64 { hash - hash % 0x100 + low }

  function Absorb(hash: u64, byte: u8): u64 { Scramble(Mix(hash, byte)) }

  function AbsorbAll(hash: u64, bytes: seq<u8>): u64 {
    if bytes == [] then hash else Absorb(AbsorbAll(hash, bytes[..|bytes| - 1]), bytes[|bytes| - 1])
  }

  /** Everything a digest takes in, in order. */
  function Encoding(width: u32, height: u32, pixels: seq<u8>): seq<u8> { Le32(width) + Le32(height) + pixels }

  function Hash(width: u32, height: u32, pixels: seq<u8>): u64 { AbsorbAll(FNV_OFFSET, Encoding(width, height, pixels)) }

  // --- each step loses nothing -----------------------------------------------------------

  /** Multiplying by the inverse undoes a multiplication by the prime. */
  lemma ScrambleUndone(x: u64)
    ensures Scramble(x) * FNV_INVERSE % TWO64 == x
  {
    var q, r := x * FNV_PRIME / TWO64, x * FNV_PRIME % TWO64;
    DivMod(x * FNV_PRIME, TWO64);
    assert FNV_PRIME * FNV_INVERSE == 1 + CARRY * TWO64;
    assert r * FNV_INVERSE == TWO64 * (CARRY * x - q * FNV_INVERSE) + x;
    DivUnique(r * FNV_INVERSE, TWO64, CARRY * x - q * FNV_INVERSE, x);
  }

  /** What the product of the prime and its inverse carries out of 64 bits. */
  const CARRY: nat := 0xCE9650590F

  lemma {:induction false} XorBytes(a: u8, b: u8, a': u8, b': u8)
    ensures ByteXor(a, b) == ByteXor(a', b) ==> a == a'
    ensures ByteXor(a, b) == ByteXor(a, b') ==> b == b'
  {
    PowValues();
    if ByteXor(a, b) == ByteXor(a', b) {
      forall k | 0 <= k < 8 ensures Bit(a, k) == Bit(a', k) { XorBit(a, b, k); XorBit(a', b, k); }
      SameBits(a, a', 8);
    }
    if ByteXor(a, b) == ByteXor(a, b') {
      forall k | 0 <= k < 8 ensures Bit(b, k) == Bit(b', k) { XorBit(a, b, k); XorBit(a, b', k); }
      SameBits(b, b', 8);
    }
  }

  lemma XorBit(a: u8, b: u8, k: nat)
    requires k < 8
    ensures Bit(ByteXor(a, b), k) == (Bit(a, k) != Bit(b, k))
  {
    BitwiseBit((p, q) => p != q, a, b, 8, k);
  }

  lemma MixInjective(h: u64, a: u8, h': u64, a': u8)
    ensures Mix(h, a) == Mix(h', a) ==> h == h'
    ensures Mix(h, a) == Mix(h, a') ==> a == a'
  {
    hide ByteXor;
    XorBytes(h % 0x100, a, h' % 0x100, a');
    assert Mix(h, a) % 0x100 == ByteXor(h % 0x100, a) && Mix(h', a) % 0x100 == ByteXor(h' % 0x100, a);
  }

  /** A step is injective in the state and in the byte. */
  lemma AbsorbInjective(h: u64, a: u8, h': u64, a': u8)
    ensures Absorb(h, a) == Absorb(h', a) ==> h == h'
    ensures Absorb(h, a) == Absorb(h, a') ==> a == a'
  {
    hide Scramble, Mix;
    MixInjective(h, a, h', a');
    ScrambleUndone(Mix(h, a));
    ScrambleUndone(Mix(h', a));
    ScrambleUndone(Mix(h, a'));
  }

  /** Absorbing the same bytes keeps different states different. */
  lemma {:induction false} AbsorbAllInjective(h: u64, h': u64, bytes: seq<u8>)
    requires AbsorbAll(h, bytes) == AbsorbAll(h', bytes)
    ensures h == h'
  {
    hide Absorb;
    if bytes != [] {
      var front, last := bytes[..|bytes| - 1], bytes[|bytes| - 1];
      AbsorbInjective(AbsorbAll(h, front), last, AbsorbAll(h', front), last);
      AbsorbAllInjective(h, h', front);
    }
  }

  lemma {:induction false} AbsorbAppend(h: u64, a: seq<u8>, b: seq<u8>)
    ensures AbsorbAll(h, a + b) == AbsorbAll(AbsorbAll(h, a), b)
  {
    hide Absorb;
    if b == [] {
      assert a + b == a;
    } else {
      AbsorbAppend(h, a, b[..|b| - 1]);
      assert (a + b)[..|a + b| - 1] == a + b[..|b| - 1];
    }
  }

  /** Two encodings that differ in exactly one place. */
  predicate DifferAt(a: seq<u8>, b: seq<u8>, k: nat) {
    |a| == |b| && k < |a| && a[k] != b[k] && forall i :: 0 <= i < |a| && i != k ==> a[i] == b[i]
  }

  /** Changing one byte of what is absorbed always changes the hash. */
  lemma OneByteChanges(h: u64, a: seq<u8>, b: seq<u8>, k: nat)
    requires DifferAt(a, b, k)
    ensures AbsorbAll(h, a) != AbsorbAll(h, b)
  {
    hide Absorb;
    var front, tail := a[..k], a[k + 1..];
    assert a == front + [a[k]] + tail && b == front + [b[k]] + tail;
    AbsorbAppend(h, front + [a[k]], tail);
    AbsorbAppend(h, front + [b[k]], tail);
    AbsorbOne(h, front, a[k]);
    AbsorbOne(h, front, b[k]);
    var middle := AbsorbAll(h, front);
    AbsorbInjective(middle, a[k], middle, b[k]);
    if AbsorbAll(h, a) == AbsorbAll(h, b) {
      AbsorbAllInjective(Absorb(middle, a[k]), Absorb(middle, b[k]), tail);
    }
  }

  lemma AbsorbOne(h: u64, front: seq<u8>, byte: u8)
    ensures AbsorbAll(h, front + [byte]) == Absorb(AbsorbAll(h, front), byte)
  {
    hide Absorb;
    assert (front + [byte])[..|front|] == front;
  }

  // --- sixteen digits -------------------------------------------------------------------------

  function DigitOf(digit: nat): char
    requires digit < 16
  {
    "0123456789abcdef"[digit]
  }

  /** The low digits of a number, most significant first. */
  function Digits(v: nat, n: nat): (s: string)
    ensures |s| == n
    decreases n
  {
    if n == 0 then "" else Digits(v / 16, n - 1) + [DigitOf(v % 16)]
  }

  lemma DigitsDiffer(a: nat, b: nat)
    requires a < 16 && b < 16 && DigitOf(a) == DigitOf(b)
    ensures a == b
  {}

  lemma LastDigit(v: nat, n: nat)
    requires n > 0
    ensures Digits(v, n)[n - 1] == DigitOf(v % 16) && Digits(v, n)[..n - 1] == Digits(v / 16, n - 1)
  {
    hide DigitOf;
  }

  /** Numbers that `n` digits hold are told apart by them. */
  lemma {:induction false} DigitsInjective(a: nat, b: nat, n: nat)
    requires a < Pow2(4 * n) && b < Pow2(4 * n) && Digits(a, n) == Digits(b, n)
    ensures a == b
    decreases n
  {
    if n > 0 {
      hide Digits, DigitOf, Pow2;
      PowStep(4 * (n - 1));
      LastDigit(a, n);
      LastDigit(b, n);
      DigitsInjective(a / 16, b / 16, n - 1);
      DigitsDiffer(a % 16, b % 16);
    }
  }

  lemma SixteenFit(v: u64)
    ensures v < Pow2(4 * 16)
  {
    hide Pow2;
    PowValues();
    PowStep(32); PowStep(36); PowStep(40); PowStep(44); PowStep(48); PowStep(52); PowStep(56); PowStep(60);
  }

  /** The digest: dimensions first, low byte first, then every pixel byte. */
  method Digest(width: u32, height: u32, pixels: seq<u8>) returns (text: string)
    ensures |text| == 16 && text == Digits(Hash(width, height, pixels), 16)
  {
    hide Absorb, Digits, Le32;
    var hash := FNV_OFFSET;
    var w, h := Le32(width), Le32(height);
    ghost var all := w + h + pixels;
    for k := 0 to 4
      invariant hash == AbsorbAll(FNV_OFFSET, all[..k])
    {
      assert all[..k + 1][..k] == all[..k];
      hash := Absorb(hash, w[k]);
    }
    for k := 0 to 4
      invariant hash == AbsorbAll(FNV_OFFSET, all[..4 + k])
    {
      assert all[..4 + k + 1][..4 + k] == all[..4 + k];
      hash := Absorb(hash, h[k]);
    }
    for k := 0 to |pixels|
      invariant hash == AbsorbAll(FNV_OFFSET, all[..8 + k])
    {
      assert all[..8 + k + 1][..8 + k] == all[..8 + k];
      hash := Absorb(hash, pixels[k]);
    }
    assert all[..|all|] == all;
    text := Digits(hash, 16);
  }

  /** Frames whose encodings differ in exactly one byte, of a pixel or of a dimension, digest differently. */
  lemma DigestSensitive(width: u32, height: u32, pixels: seq<u8>, width': u32, height': u32, pixels': seq<u8>, k: nat)
    requires DifferAt(Encoding(width, height, pixels), Encoding(width', height', pixels'), k)
    ensures Digits(Hash(width, height, pixels), 16) != Digits(Hash(width', height', pixels'), 16)
  {
    hide Digits, Absorb, AbsorbAll, DifferAt, Le32, Pow2;
    OneByteChanges(FNV_OFFSET, Encoding(width, height, pixels), Encoding(width', height', pixels'), k);
    SixteenFit(Hash(width, height, pixels));
    SixteenFit(Hash(width', height', pixels'));
    if Digits(Hash(width, height, pixels), 16) == Digits(Hash(width', height', pixels'), 16) {
      DigitsInjective(Hash(width, height, pixels), Hash(width', height', pixels'), 16);
    }
  }

  /** In particular, changing one byte of one pixel. */
  lemma PixelSensitive(width: u32, height: u32, pixels: seq<u8>, k: nat, byte: u8)
    requires k < |pixels| && byte != pixels[k]
    ensures Digits(Hash(width, height, pixels), 16) != Digits(Hash(width, height, pixels[k := byte]), 16)
  {
    DigestSensitive(width, height, pixels, width, height, pixels[k := byte], 8 + k);
  }

  // --- what the digest says ------------------------------------------------------------------

  /** The number a hexadecimal digit stands for. */
  function Nibble(c: char): int { if '0' <= c <= '9' then c as int - '0' as int else c as int - 'a' as int + 10 }

  /** The number a text stands for, most significant digit first. */
  function NumberOf(text: string): int {
    if text == "" then 0 else 16 * NumberOf(text[..|text| - 1]) + Nibble(text[|text| - 1])
  }

  /** The text is the number in lower-case hexadecimal. */
  lemma {:induction false} DigitsMean(v: nat, n: nat)
    requires v < Pow2(4 * n)
    ensures NumberOf(Digits(v, n)) == v && forall c :: c in Digits(v, n) ==> '0' <= c <= '9' || 'a' <= c <= 'f'
    decreases n
  {
    if n > 0 {
      hide Pow2, DigitOf;
      PowStep(4 * (n - 1));
      DigitsMean(v / 16, n - 1);
      LastDigit(v, n);
      NibbleIs(v % 16);
      assert Digits(v, n) == Digits(v / 16, n - 1) + [DigitOf(v % 16)];
    }
  }

  lemma NibbleIs(digit: nat)
    requires digit < 16
    ensures Nibble(DigitOf(digit)) == digit && ('0' <= DigitOf(digit) <= '9' || 'a' <= DigitOf(digit) <= 'f')
  {}

  /** The hash as published: FNV-1a of nothing and of one zero byte. */
  lemma KnownHashes()
    ensures AbsorbAll(FNV_OFFSET, []) == 0xCBF2_9CE4_8422_2325 && AbsorbAll(FNV_OFFSET, [0]) == 0xAF63_BD4C_8601_B7DF
  {
    hide ByteXor;
    assert [0][..0] == [];
    assert AbsorbAll(FNV_OFFSET, [0]) == Absorb(FNV_OFFSET, 0);
    XorNothing(0x25);
  }

  lemma XorNothing(a: u8)
    ensures ByteXor(a, 0) == a
  {
    hide Bit, ByteXor;
    PowValues();
    forall k | 0 <= k < 8 ensures Bit(ByteXor(a, 0), k) == Bit(a, k) {
      XorBit(a, 0, k);
      ZeroBit(k);
    }
    SameBits(ByteXor(a, 0), a, 8);
  }

  /** Width, height and pixels are absorbed in that order, the dimensions low byte first. */
  lemma EncodingMeans(width: u32, height: u32, pixels: seq<u8>)
    ensures var bytes := Encoding(width, height, pixels);
            && |bytes| == 8 + |pixels| && FromLe32(bytes[..4]) == width && FromLe32(bytes[4..8]) == height && bytes[8..] == pixels
  {
    hide Le32, FromLe32;
    var bytes := Encoding(width, height, pixels);
    assert bytes[..4] == Le32(width) && bytes[4..8] == Le32(height) && bytes[8..] == pixels;
  }
}
