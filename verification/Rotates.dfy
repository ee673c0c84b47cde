/**
 Rotations of `n`-bit numbers, one bit at a time, and the interpreter's rotate
 and shift results (exec.rs, `shift`).
 */
module Rotates {
  import opened Words
  import opened Bits
  import opened GuestCpu
  import opened AluFlags

  // --- single-bit rotations of an n-bit number -------------------------------

  function RotL(v: nat, n: nat): nat
    requires n > 0
  {
    if v >= Pow2(n - 1) then 2 * (v - Pow2(n - 1)) + 1 else 2 * v
  }

  function RotR(v: nat, n: nat): nat
    requires n > 0
  {
    if v % 2 == 1 then v / 2 + Pow2(n - 1) else v / 2
  }

  function RotLTimes(v: nat, n: nat, k: nat): nat
    requires n > 0
  {
    if k == 0 then v else RotL(RotLTimes(v, n, k - 1), n)
  }

  function RotRTimes(v: nat, n: nat, k: nat): nat
    requires n > 0
  {
    if k == 0 then v else RotR(RotRTimes(v, n, k - 1), n)
  }

  lemma RotRRotL(v: nat, n: nat)
    requires n > 0 && v < Pow2(n)
    ensures RotL(v, n) < Pow2(n) && RotR(RotL(v, n), n) == v
    ensures RotR(v, n) < Pow2(n) && RotL(RotR(v, n), n) == v
  {
    assert Pow2(n) == 2 * Pow2(n - 1);
    hide Pow2;
  }

  lemma {:induction false} TimesBound(v: nat, n: nat, k: nat)
    requires n > 0 && v < Pow2(n)
    ensures RotLTimes(v, n, k) < Pow2(n) && RotRTimes(v, n, k) < Pow2(n)
  {
    if k > 0 {
      TimesBound(v, n, k - 1);
      RotRRotL(RotLTimes(v, n, k - 1), n);
      RotRRotL(RotRTimes(v, n, k - 1), n);
    }
  }

  lemma {:induction false} TimesAdd(v: nat, n: nat, j: nat, k: nat)
    requires n > 0
    ensures RotLTimes(RotLTimes(v, n, j), n, k) == RotLTimes(v, n, j + k)
    ensures RotRTimes(RotRTimes(v, n, j), n, k) == RotRTimes(v, n, j + k)
  {
    hide RotL, RotR;
    if k > 0 { TimesAdd(v, n, j, k - 1); }
  }

  /** Rotating right undoes rotating left, and the other way round. */
  lemma {:induction false} TimesInverse(v: nat, n: nat, k: nat)
    requires n > 0 && v < Pow2(n)
    ensures RotRTimes(RotLTimes(v, n, k), n, k) == v
    ensures RotLTimes(RotRTimes(v, n, k), n, k) == v
  {
    hide RotL, RotR, Pow2;
    if k > 0 {
      var x, y := RotLTimes(v, n, k - 1), RotRTimes(v, n, k - 1);
      TimesBound(v, n, k - 1);
      RotRRotL(x, n);
      RotRRotL(y, n);
      TimesAdd(RotL(x, n), n, 1, k - 1);
      TimesAdd(RotR(y, n), n, 1, k - 1);
      assert RotRTimes(RotL(x, n), n, 1) == x by { TimesOne(RotL(x, n), n); }
      assert RotLTimes(RotR(y, n), n, 1) == y by { TimesOne(RotR(y, n), n); }
      TimesInverse(v, n, k - 1);
    }
  }

  lemma TimesOne(v: nat, n: nat)
    requires n > 0
    ensures RotRTimes(v, n, 1) == RotR(v, n) && RotLTimes(v, n, 1) == RotL(v, n)
  {}

  // --- rotations move bits ---------------------------------------------------

  lemma RotLBit(v: nat, n: nat, i: nat)
    requires n > 0 && v < Pow2(n) && i < n
    ensures Bit(RotL(v, n), i) == Bit(v, if i == 0 then n - 1 else i - 1)
  {
    TopBit(v, n - 1);
    var p := Pow2(n - 1);
    var low := if v >= p then v - p else v;
    var r := RotL(v, n);
    assert r / 2 == low && r % 2 == BitOf(v >= p);
    if i > 0 {
      LowBit(low, BitOf(v >= p), n - 1, i - 1);
      assert low + p * BitOf(v >= p) == v;
    }
  }

  /** After `k` rotations bit `i` is the bit that was `k` places below, cyclically. */
  lemma {:induction false} RotLTimesBit(v: nat, n: nat, k: nat, i: nat)
    requires n > 0 && v < Pow2(n) && i < n && k <= n
    ensures Bit(RotLTimes(v, n, k), i) == Bit(v, if i >= k then i - k else i + n - k)
    decreases k
  {
    hide Bit, RotL;
    if k > 0 {
      TimesBound(v, n, k - 1);
      RotLBit(RotLTimes(v, n, k - 1), n, i);
      RotLTimesBit(v, n, k - 1, if i == 0 then n - 1 else i - 1);
    }
  }

  /** A full turn changes nothing. */
  lemma FullTurn(v: nat, n: nat)
    requires n > 0 && v < Pow2(n)
    ensures RotLTimes(v, n, n) == v && RotRTimes(v, n, n) == v
  {
    hide Bit;
    TimesBound(v, n, n);
    forall i | 0 <= i < n ensures Bit(RotLTimes(v, n, n), i) == Bit(v, i) {
      RotLTimesBit(v, n, n, i);
    }
    SameBits(RotLTimes(v, n, n), v, n);
    TimesInverse(v, n, n);
  }

  /** Only the count modulo the number of bits matters. */
  lemma {:induction false} CountReduces(v: nat, n: nat, k: nat)
    requires n > 0 && v < Pow2(n)
    ensures RotLTimes(v, n, k) == RotLTimes(v, n, k % n)
    ensures RotRTimes(v, n, k) == RotRTimes(v, n, k % n)
  {
    hide RotLTimes, RotRTimes, Pow2;
    if k >= n {
      TimesAdd(v, n, n, k - n);
      FullTurn(v, n);
      CountReduces(v, n, k - n);
      assert (k - n) % n == k % n by { ModOff(k, n); }
    } else {
      assert k % n == k;
    }
  }

  lemma ModOff(k: nat, n: nat)
    requires 0 < n <= k
    ensures (k - n) % n == k % n
  {
    DivMod(k - n, n);
    assert k == n * ((k - n) / n + 1) + (k - n) % n;
    DivUnique(k, n, (k - n) / n + 1, (k - n) % n);
  }

  // --- rotates through carry (exec.rs) -----------------------------------------

  /** The number whose top bit is the carry and whose low bits are the operand. */
  function Joined(carry: bool, value: u32, w: Width): nat { BitOf(carry) * w.Modulus() + value }

  lemma WidthPowers(w: Width)
    ensures Pow2(w.Bits()) == w.Modulus() && Pow2(w.Bits() - 1) == w.SignBit()
    ensures Pow2(w.Bits() + 1) == 2 * w.Modulus()
  {
    PowValues();
  }

  /** The RCL loop: as many steps as the count, reduced by the width plus one. */
  method RotateCarryLeft(a: u32, carryIn: bool, count: nat, w: Width) returns (value: u32, carry: bool)
    requires a < w.Modulus()
    ensures value < w.Modulus()
    ensures Joined(carry, value, w) == RotLTimes(Joined(carryIn, a, w), w.Bits() + 1, count)
  {
    WidthPowers(w);
    hide Pow2, RotL, Bit;
    var rotation := count % (w.Bits() + 1);
    value, carry := a, carryIn;
    ghost var start := Joined(carryIn, a, w);
    for i := 0 to rotation
      invariant value < w.Modulus()
      invariant Joined(carry, value, w) == RotLTimes(start, w.Bits() + 1, i)
    {
      CarryStepLeft(value, carry, w);
      var out := SignOf(value, w);
      value := Mask(2 * value + BitOf(carry), w);
      carry := out;
    }
    CountReduces(start, w.Bits() + 1, count);
  }

  /** One turn of the RCL loop is one rotation of the joined number. */
  lemma CarryStepLeft(value: u32, carry: bool, w: Width)
    requires value < w.Modulus()
    ensures Mask(2 * value + BitOf(carry), w) < w.Modulus()
    ensures Joined(SignOf(value, w), Mask(2 * value + BitOf(carry), w), w)
            == RotL(Joined(carry, value, w), w.Bits() + 1)
  {
    hide Bit, Pow2, Mask, SignOf;
    WidthPowers(w);
    SignMeans(value, w);
    MaskBound(2 * value + BitOf(carry), w);
    MaskSum(value, value, BitOf(carry), w);
  }

  /** The RCR loop. */
  method RotateCarryRight(a: u32, carryIn: bool, count: nat, w: Width) returns (value: u32, carry: bool)
    requires a < w.Modulus()
    ensures value < w.Modulus()
    ensures Joined(carry, value, w) == RotRTimes(Joined(carryIn, a, w), w.Bits() + 1, count)
  {
    WidthPowers(w);
    hide Pow2, RotR, Bit;
    var rotation := count % (w.Bits() + 1);
    value, carry := a, carryIn;
    ghost var start := Joined(carryIn, a, w);
    for i := 0 to rotation
      invariant value < w.Modulus()
      invariant Joined(carry, value, w) == RotRTimes(start, w.Bits() + 1, i)
    {
      CarryStepRight(value, carry, w);
      var out := value % 2 == 1;
      value := value / 2 + BitOf(carry) * w.SignBit();
      carry := out;
    }
    CountReduces(start, w.Bits() + 1, count);
  }

  lemma CarryStepRight(value: u32, carry: bool, w: Width)
    requires value < w.Modulus()
    ensures value / 2 + BitOf(carry) * w.SignBit() < w.Modulus()
    ensures Joined(value % 2 == 1, value / 2 + BitOf(carry) * w.SignBit(), w)
            == RotR(Joined(carry, value, w), w.Bits() + 1)
  {
    hide Bit, Pow2;
    WidthPowers(w);
  }

  /** RCR by `n` undoes RCL by `n`, on the operand and on the carry. */
  lemma CarryRotatesUndo(a: u32, carryIn: bool, b: u32, carryMid: bool, c: u32, carryOut: bool, count: nat, w: Width)
    requires a < w.Modulus() && b < w.Modulus() && c < w.Modulus()
    requires Joined(carryMid, b, w) == RotLTimes(Joined(carryIn, a, w), w.Bits() + 1, count)
    requires Joined(carryOut, c, w) == RotRTimes(Joined(carryMid, b, w), w.Bits() + 1, count)
    ensures c == a && carryOut == carryIn
  {
    hide RotLTimes, RotRTimes, Pow2;
    WidthPowers(w);
    TimesInverse(Joined(carryIn, a, w), w.Bits() + 1, count);
  }

  // --- the results of every shift and rotate ------------------------------------

  datatype ShiftKind = KShl | KShr | KSar | KRol | KRor | KRcl | KRcr

  datatype Shifted = Shifted(result: u32, carry: bool, overflow: bool)

  /** Floor division, for arithmetic right shifts of negative numbers. */
  function FloorDiv(x: int, d: nat): int
    requires d > 0
  {
    x / d
  }

  /**
   The value, carry-out and count-one overflow of a shift by `count`, 1 to 31:
   shifts are multiplications and floor divisions by powers of two, rotates are
   `count` rotations by one bit, of the operand or of the operand with its carry.
   */
  function ShiftSpec(kind: ShiftKind, a: u32, carryIn: bool, count: nat, w: Width): Shifted
    requires a < w.Modulus() && 0 < count < 32
  {
    WidthPowers(w);
    match kind
    case KShl =>
      var wide := a * Pow2(count);
      var result := Mask(wide, w);
      Shifted(result, Bit(wide, w.Bits()), Bit(wide, w.Bits()) != SignOf(result, w))
    case KShr => Shifted(Mask(a / Pow2(count), w), Bit(a, count - 1), SignOf(a, w))
    case KSar =>
      Shifted(Mask(FloorDiv(SignExtend(a, w), Pow2(count)), w), FloorDiv(SignExtend(a, w), Pow2(count - 1)) % 2 == 1, false)
    case KRol =>
      TimesBound(a, w.Bits(), count);
      var result: u32 := RotLTimes(a, w.Bits(), count);
      Shifted(result, Bit(result, 0), Bit(result, 0) != SignOf(result, w))
    case KRor =>
      TimesBound(a, w.Bits(), count);
      var result: u32 := RotRTimes(a, w.Bits(), count);
      Shifted(result, SignOf(result, w), SignOf(result, w) != Bit(result, w.Bits() - 2))
    case KRcl =>
      var joined := RotLTimes(Joined(carryIn, a, w), w.Bits() + 1, count);
      var result := Mask(joined, w);
      Shifted(result, joined >= w.Modulus(), (joined >= w.Modulus()) != SignOf(result, w))
    case KRcr =>
      var joined := RotRTimes(Joined(carryIn, a, w), w.Bits() + 1, count);
      Shifted(Mask(joined, w), joined >= w.Modulus(), carryIn != SignOf(a, w))
  }

  /** `checked_shl`: no bits once the count reaches 32. */
  function CheckedShl(x: u32, k: nat): u32 { if k < 32 then x * Pow2(k) % TWO32 else 0 }

  function CheckedShr(x: u32, k: nat): u32 {
    DivLess(x, Pow2(k));
    if k < 32 then x / Pow2(k) else 0
  }

  lemma DivLess(x: nat, d: nat)
    requires d > 0
    ensures 0 <= x / d <= x
  {
    DivMod(x, d);
    if x / d >= 1 { MulGrows(x / d, d); }
  }

  lemma CheckedShlBit(x: u32, k: nat, i: nat)
    requires i < 32
    ensures Bit(CheckedShl(x, k), i) == (i >= k && Bit(x, i - k))
  {
    hide Bit, Pow2;
    if k < 32 {
      PowValues();
      LowBits(x * Pow2(k), 32, i);
      ScaledBit(x, k, i);
    } else {
      ZeroBit(i);
    }
  }

  lemma CheckedShrBit(x: u32, k: nat, i: nat)
    ensures Bit(CheckedShr(x, k), i) == Bit(x, i + k)
  {
    hide Bit, Pow2;
    if k < 32 {
      ShiftedBit(x, k, i);
    } else {
      PowValues();
      HighBit(x, 32, i + k);
      ZeroBit(i);
    }
  }

  lemma MaskBits(x: nat, w: Width, i: nat)
    ensures Bit(Mask(x, w), i) == (i < w.Bits() && Bit(x, i))
  {
    hide Bit, Pow2;
    WidthPowers(w);
    LowBits(x, w.Bits(), i);
  }

  /** The ROL expression of the interpreter. */
  function RolValue(a: u32, rotation: nat, w: Width): u32
    requires rotation < w.Bits()
  {
    Mask(BitOr(CheckedShl(a, rotation), CheckedShr(a, w.Bits() - rotation)), w)
  }

  function RorValue(a: u32, rotation: nat, w: Width): u32
    requires rotation < w.Bits()
  {
    Mask(BitOr(CheckedShr(a, rotation), CheckedShl(a, w.Bits() - rotation)), w)
  }

  /** The two-shift expression is a rotation. */
  lemma RolIsRotation(a: u32, rotation: nat, w: Width)
    requires a < w.Modulus() && rotation < w.Bits()
    ensures RolValue(a, rotation, w) == RotLTimes(a, w.Bits(), rotation)
  {
    hide Bit, Pow2, CheckedShl, CheckedShr, BitOr, Mask, RotLTimes;
    WidthPowers(w);
    var n := w.Bits();
    var left, right := CheckedShl(a, rotation), CheckedShr(a, n - rotation);
    MaskBound(BitOr(left, right), w);
    TimesBound(a, n, rotation);
    forall i | 0 <= i < n ensures Bit(RolValue(a, rotation, w), i) == Bit(RotLTimes(a, n, rotation), i) {
      MaskBits(BitOr(left, right), w, i);
      BitOrBit(left, right, i);
      CheckedShlBit(a, rotation, i);
      CheckedShrBit(a, n - rotation, i);
      RotLTimesBit(a, n, rotation, i);
      if i >= rotation { HighBit(a, n, i + n - rotation); }
    }
    SameBits(RolValue(a, rotation, w), RotLTimes(a, n, rotation), n);
  }

  lemma RightIsLeft(v: nat, n: nat, k: nat)
    requires n > 0 && v < Pow2(n) && k <= n
    ensures RotRTimes(v, n, k) == RotLTimes(v, n, n - k)
  {
    hide RotLTimes, RotRTimes, Pow2;
    TimesBound(v, n, n - k);
    TimesAdd(v, n, n - k, k);
    FullTurn(v, n);
    TimesInverse(RotLTimes(v, n, n - k), n, k);
  }

  lemma RorIsRotation(a: u32, rotation: nat, w: Width)
    requires a < w.Modulus() && rotation < w.Bits()
    ensures RorValue(a, rotation, w) == RotRTimes(a, w.Bits(), rotation)
  {
    hide Bit, Pow2, CheckedShl, CheckedShr, BitOr, Mask, RotLTimes, RotRTimes;
    WidthPowers(w);
    var n := w.Bits();
    RightIsLeft(a, n, rotation);
    var right, left := CheckedShr(a, rotation), CheckedShl(a, n - rotation);
    MaskBound(BitOr(right, left), w);
    TimesBound(a, n, n - rotation);
    forall i | 0 <= i < n ensures Bit(RorValue(a, rotation, w), i) == Bit(RotLTimes(a, n, n - rotation), i) {
      MaskBits(BitOr(right, left), w, i);
      BitOrBit(right, left, i);
      CheckedShlBit(a, n - rotation, i);
      CheckedShrBit(a, rotation, i);
      RotLTimesBit(a, n, n - rotation, i);
      if i >= n - rotation { HighBit(a, n, i + rotation); }
    }
    SameBits(RorValue(a, rotation, w), RotLTimes(a, n, n - rotation), n);
  }

  /** The results the interpreter computes before it writes anything. */
  method ShiftValue(kind: ShiftKind, a: u32, carryIn: bool, count: nat, w: Width) returns (r: Shifted)
    requires a < w.Modulus() && 0 < count < 32
    ensures r == ShiftSpec(kind, a, carryIn, count, w)
  {
    WidthPowers(w);
    hide Pow2, Bit, Mask, RotLTimes, RotRTimes, RolValue, RorValue, SignExtend;
    match kind
    case KShl =>
      var wide := a * Pow2(count);
      var result := Mask(wide, w);
      var carry := Bit(wide, w.Bits());
      r := Shifted(result, carry, carry != SignOf(result, w));
    case KShr => r := Shifted(Mask(a / Pow2(count), w), Bit(a, count - 1), SignOf(a, w));
    case KSar =>
      var extended := SignExtend(a, w);
      r := Shifted(Mask(FloorDiv(extended, Pow2(count)), w), FloorDiv(extended, Pow2(count - 1)) % 2 == 1, false);
    case KRol =>
      var rotation := count % w.Bits();
      RolIsRotation(a, rotation, w);
      CountReduces(a, w.Bits(), count);
      var result := RolValue(a, rotation, w);
      var carry := Bit(result, 0);
      r := Shifted(result, carry, carry != SignOf(result, w));
    case KRor =>
      var rotation := count % w.Bits();
      RorIsRotation(a, rotation, w);
      CountReduces(a, w.Bits(), count);
      var result := RorValue(a, rotation, w);
      var carry := SignOf(result, w);
      r := Shifted(result, carry, carry != Bit(result, w.Bits() - 2));
    case KRcl =>
      var value, carry := RotateCarryLeft(a, carryIn, count, w);
      SplitJoined(carry, value, w);
      r := Shifted(value, carry, carry != SignOf(value, w));
    case KRcr =>
      var overflow := carryIn != SignOf(a, w);
      var value, carry := RotateCarryRight(a, carryIn, count, w);
      SplitJoined(carry, value, w);
      r := Shifted(value, carry, overflow);
  }

  lemma SplitJoined(carry: bool, value: u32, w: Width)
    requires value < w.Modulus()
    ensures Mask(Joined(carry, value, w), w) == value
    ensures Joined(carry, value, w) >= w.Modulus() <==> carry
  {}
}
