/** Width-parametric arithmetic and the condition codes (exec.rs, flag computation). */
module AluFlags {
  import opened Words
  import opened Bits
  import opened GuestCpu
  import opened Iced

  datatype Width = Byte | Word | Dword
  {
    function Bytes(): (n: nat)
      ensures 0 < n <= 4
    { match this case Byte => 1 case Word => 2 case Dword => 4 }

    function Bits(): nat { 8 * Bytes() }

    /** One more than the operand mask. */
    function Modulus(): (m: nat)
      ensures m > 1
    { match this case Byte => 0x100 case Word => 0x1_0000 case Dword => TWO32 }

    /** The value of the sign bit. */
    function SignBit(): (h: nat)
      ensures 2 * h == Modulus()
    { match this case Byte => 0x80 case Word => 0x8000 case Dword => 0x8000_0000 }
  }

  function WidthOfBytes(bytes: nat): Option<Width> {
    if bytes == 1 then Some(Byte) else if bytes == 2 then Some(Word) else if bytes == 4 then Some(Dword) else None
  }

  /** The low `w` bits of a number. */
  function Mask(x: int, w: Width): u32 { x % w.Modulus() }

  /** The two's complement reading of `x` when `h` is the value of the sign bit. */
  function ToSigned(x: int, h: int): int { if x >= h then x - 2 * h else x }

  /** The two's complement reading of the low `w` bits. */
  function SignExtend(x: u32, w: Width): int {
    ToSigned(Mask(x, w), w.SignBit())
  }

  predicate SignOf(x: u32, w: Width) { Bit(x, w.Bits() - 1) }

  function ResultBits(result: u32, w: Width): Status {
    var masked := Mask(result, w);
    Status(false, CountOnes(masked, 8) % 2 == 0, false, masked == 0, SignOf(masked, w), false)
  }

  function AddBits(a: u32, b: u32, carryIn: bool, w: Width): (u32, Status) {
    var x, y := Mask(a, w), Mask(b, w);
    var wide := x + y + BitOf(carryIn);
    var result := Mask(wide, w);
    (result, ResultBits(result, w).(
      carry := wide > w.Modulus() - 1,
      auxiliary := Bit(BitXor(BitXor(x, y), result), 4),
      overflow := SignOf(BitAnd(BitXor(x, result), BitXor(y, result)), w)))
  }

  function SubBits(a: u32, b: u32, borrowIn: bool, w: Width): (u32, Status) {
    var x, y := Mask(a, w), Mask(b, w);
    var result := Mask(WrapSub(WrapSub(x, y), BitOf(borrowIn)), w);
    (result, ResultBits(result, w).(
      carry := x < y + BitOf(borrowIn),
      auxiliary := Bit(BitXor(BitXor(x, y), result), 4),
      overflow := SignOf(BitAnd(BitXor(x, y), BitXor(x, result)), w)))
  }

  function ConditionMet(eflags: u32, code: ConditionCode): bool {
    var carry, zero, sign := Bit(eflags, CARRY_BIT), Bit(eflags, ZERO_BIT), Bit(eflags, SIGN_BIT);
    var overflow, parity := Bit(eflags, OVERFLOW_BIT), Bit(eflags, PARITY_BIT);
    match code
    case CcNone => false
    case CcO => overflow
    case CcNo => !overflow
    case CcB => carry
    case CcAe => !carry
    case CcE => zero
    case CcNe => !zero
    case CcBe => carry || zero
    case CcA => !carry && !zero
    case CcS => sign
    case CcNs => !sign
    case CcP => parity
    case CcNp => !parity
    case CcL => sign != overflow
    case CcGe => sign == overflow
    case CcLe => zero || sign != overflow
    case CcG => !zero && sign == overflow
  }

  // --- what the flags mean ---------------------------------------------------

  lemma SignMeans(x: u32, w: Width)
    requires x < w.Modulus()
    ensures SignOf(x, w) <==> x >= w.SignBit()
  {
    hide Bit, Pow2;
    PowValues();
    TopBit(x, w.Bits() - 1);
  }

  predicate Fits(x: int, w: Width) { 0 - w.SignBit() <= x < w.SignBit() }

  /** The sign bits of an exclusive-or of masked operands. */
  lemma SignXor(x: u32, y: u32, w: Width)
    requires x < w.Modulus() && y < w.Modulus()
    ensures SignOf(BitXor(x, y), w) <==> (x >= w.SignBit()) != (y >= w.SignBit())
  {
    hide Bit, BitXor;
    BitXorBit(x, y, w.Bits() - 1);
    SignMeans(x, w);
    SignMeans(y, w);
  }

  lemma SignAnd(x: u32, y: u32, w: Width)
    ensures SignOf(BitAnd(x, y), w) <==> SignOf(x, w) && SignOf(y, w)
  {
    hide Bit, BitAnd;
    BitAndBit(x, y, w.Bits() - 1);
  }

  /** Overflow of an addition, read off the signs. */
  lemma AddSigns(x: int, y: int, c: int, r: int, h: int)
    requires 0 <= x < 2 * h && 0 <= y < 2 * h && 0 <= c <= 1
    requires r == x + y + c - (if x + y + c >= 2 * h then 2 * h else 0)
    ensures ((x >= h) != (r >= h)) && ((y >= h) != (r >= h)) <==> !(-h <= ToSigned(x, h) + ToSigned(y, h) + c < h)
  {}

  lemma SubSigns(x: int, y: int, c: int, r: int, h: int)
    requires 0 <= x < 2 * h && 0 <= y < 2 * h && 0 <= c <= 1
    requires r == x - y - c + (if x < y + c then 2 * h else 0)
    ensures ((x >= h) != (y >= h)) && ((x >= h) != (r >= h)) <==> !(-h <= ToSigned(x, h) - ToSigned(y, h) - c < h)
  {}

  lemma AddResult(x: nat, y: nat, c: nat, m: nat)
    requires x < m && y < m && c <= 1
    ensures (x + y + c) % m == x + y + c - (if x + y + c >= m then m else 0)
  {
    var z := x + y + c;
    if z >= m { ModOnce(z, m); } else { SmallMod(z, m); }
  }

  lemma SmallMod(z: nat, m: nat)
    requires z < m
    ensures z % m == z
  {}

  lemma ModOnce(z: nat, m: nat)
    requires m <= z < 2 * m
    ensures z % m == z - m
  {
    assert z / m == 1;
  }

  lemma SubResult(x: u32, y: u32, c: bool, w: Width)
    requires x < w.Modulus() && y < w.Modulus()
    ensures Mask(WrapSub(WrapSub(x, y), BitOf(c)), w) ==
            x - y - BitOf(c) + (if x < y + BitOf(c) then w.Modulus() else 0)
  {
    var z := x - y - BitOf(c);
    WrapSubTwice(x, y, BitOf(c));
    hide WrapSub, Mask;
    if z < 0 { MaskNegative(z, w); } else { MaskSmall(z, w); }
  }

  lemma MaskNegative(z: int, w: Width)
    requires 0 - w.Modulus() <= z < 0
    ensures Mask(z + TWO32, w) == z + w.Modulus()
  {
    var k := match w case Byte => 0xFF_FFFF case Word => 0xFFFF case Dword => 0;
    assert z + TWO32 == w.Modulus() * k + (z + w.Modulus());
    DivUnique(z + TWO32, w.Modulus(), k, z + w.Modulus());
  }

  lemma WrapSubTwice(x: u32, y: u32, c: nat)
    requires c <= 1
    ensures WrapSub(WrapSub(x, y), c) == x - y - c + (if x < y + c then TWO32 else 0)
  {
    var d := WrapSub(x, y);
    assert d == x - y + (if x < y then TWO32 else 0);
  }

  /** Addition: carry and overflow say the unsigned and the signed sum do not fit. */
  lemma AddMeans(a: u32, b: u32, c: bool, w: Width)
    ensures var (r, s) := AddBits(a, b, c, w);
            && r < w.Modulus()
            && r + (if s.carry then w.Modulus() else 0) == Mask(a, w) + Mask(b, w) + BitOf(c)
            && (s.overflow <==> !Fits(SignExtend(a, w) + SignExtend(b, w) + BitOf(c), w))
            && (s.zero <==> r == 0) && (s.sign <==> SignExtend(r, w) < 0)
  {
    hide Bit, BitXor, BitAnd, SignOf, CountOnes, Mask;
    var x, y := Mask(a, w), Mask(b, w);
    var r := AddBits(a, b, c, w).0;
    MaskBound(a, w); MaskBound(b, w);
    MaskSum(x, y, BitOf(c), w);
    MaskSmall(r, w);
    AddSigns(x, y, BitOf(c), r, w.SignBit());
    SignAnd(BitXor(x, r), BitXor(y, r), w);
    SignXor(x, r, w);
    SignXor(y, r, w);
    SignMeans(r, w);
  }

  lemma MaskBound(a: int, w: Width)
    ensures Mask(a, w) < w.Modulus()
  {}

  lemma MaskSmall(a: nat, w: Width)
    requires a < w.Modulus()
    ensures Mask(a, w) == a
  {}

  lemma MaskSum(x: nat, y: nat, c: nat, w: Width)
    requires x < w.Modulus() && y < w.Modulus() && c <= 1
    ensures Mask(x + y + c, w) == x + y + c - (if x + y + c >= w.Modulus() then w.Modulus() else 0)
  {
    AddResult(x, y, c, w.Modulus());
  }

  /** Subtraction: carry is the borrow, overflow that the signed difference does not fit. */
  lemma SubMeans(a: u32, b: u32, c: bool, w: Width)
    ensures var (r, s) := SubBits(a, b, c, w);
            && r < w.Modulus()
            && r - (if s.carry then w.Modulus() else 0) == Mask(a, w) - Mask(b, w) - BitOf(c)
            && (s.overflow <==> !Fits(SignExtend(a, w) - SignExtend(b, w) - BitOf(c), w))
            && (s.zero <==> r == 0) && (s.sign <==> SignExtend(r, w) < 0)
  {
    hide Bit, BitXor, BitAnd, SignOf, CountOnes, WrapSub, Mask;
    var x, y := Mask(a, w), Mask(b, w);
    var r := SubBits(a, b, c, w).0;
    MaskBound(a, w); MaskBound(b, w);
    SubResult(x, y, c, w);
    MaskSmall(r, w);
    SubSigns(x, y, BitOf(c), r, w.SignBit());
    SignAnd(BitXor(x, y), BitXor(x, r), w);
    SignXor(x, y, w);
    SignXor(x, r, w);
    SignMeans(r, w);
  }

  /** A condition tested after an arithmetic instruction sees that instruction's flags. */
  lemma ConditionAfter(eflags: u32, s: Status, code: ConditionCode)
    ensures ConditionMet(MergeFlags(eflags, ARITHMETIC, FlagWord(s)), code) ==
            match code
            case CcNone => false
            case CcO => s.overflow case CcNo => !s.overflow
            case CcB => s.carry case CcAe => !s.carry
            case CcE => s.zero case CcNe => !s.zero
            case CcBe => s.carry || s.zero case CcA => !s.carry && !s.zero
            case CcS => s.sign case CcNs => !s.sign
            case CcP => s.parity case CcNp => !s.parity
            case CcL => s.sign != s.overflow case CcGe => s.sign == s.overflow
            case CcLe => s.zero || s.sign != s.overflow case CcG => !s.zero && s.sign == s.overflow
  {
    FlagsAfter(eflags, s);
    hide Bit, MergeFlags, FlagWord;
  }

  /** The bit above the low nibble after a wide sum is cut to a width. */
  lemma NibbleCarry(x: nat, y: nat, c: nat, r: nat, k: nat, modulus: nat)
    requires modulus in {0x100, 0x1_0000, TWO32} && k <= 1 && c <= 1 && r + modulus * k == x + y + c
    ensures r / 16 % 2 == (x / 16 % 2 + y / 16 % 2 + (if x % 16 + y % 16 + c >= 16 then 1 else 0)) % 2
    ensures x % 16 + y % 16 + c == r % 16 + (if x % 16 + y % 16 + c >= 16 then 16 else 0)
  {
    DivMod(x, 16);
    DivMod(y, 16);
    var carry := if x % 16 + y % 16 + c >= 16 then 1 else 0;
    var high := x / 16 + y / 16 + carry;
    DivUnique(x + y + c, 16, high, x % 16 + y % 16 + c - 16 * carry);
    Unwrapped(r, modulus, k, high, x % 16 + y % 16 + c - 16 * carry);
  }

  lemma Unwrapped(r: nat, modulus: nat, k: nat, high: nat, low: nat)
    requires modulus in {0x100, 0x1_0000, TWO32} && k <= 1 && r + modulus * k == 16 * high + low && low < 16
    ensures r % 16 == low && r / 16 % 2 == high % 2
  {
    var whole: nat := if k == 0 then 0 else if modulus == 0x100 then 16 else if modulus == 0x1_0000 then 0x1000 else 0x1000_0000;
    assert modulus * k == 16 * whole && whole % 2 == 0;
    DivUnique(r, 16, high - whole, low);
  }

  lemma FourthBits(x: u32, y: u32, r: u32, carry: bool)
    requires r / 16 % 2 == (x / 16 % 2 + y / 16 % 2 + BitOf(carry)) % 2
    ensures Bit(BitXor(BitXor(x, y), r), 4) == carry
  {
    hide Bit, BitXor;
    BitXorBit(BitXor(x, y), r, 4);
    BitXorBit(x, y, 4);
    Bit4(x); Bit4(y); Bit4(r);
  }

  /**
   After an addition the auxiliary flag is the carry out of the low nibble, and
   the parity flag says that the low byte of the result has an even number of ones.
   */
  lemma AddNibble(a: u32, b: u32, c: bool, w: Width)
    ensures var (r, s) := AddBits(a, b, c, w);
            && (s.auxiliary <==> Mask(a, w) % 16 + Mask(b, w) % 16 + BitOf(c) >= 16)
            && (s.parity <==> CountOnes(r, 8) % 2 == 0)
  {
    AddMeans(a, b, c, w);
    hide Bit, BitXor, BitAnd, SignOf, CountOnes, Mask, SignExtend, Fits;
    var x, y := Mask(a, w), Mask(b, w);
    var (r, s) := AddBits(a, b, c, w);
    MaskSmall(r, w);
    NibbleCarry(x, y, BitOf(c), r, BitOf(s.carry), w.Modulus());
    FourthBits(x, y, r, x % 16 + y % 16 + BitOf(c) >= 16);
  }

  /** After a subtraction the auxiliary flag is the borrow into the low nibble. */
  lemma SubNibble(a: u32, b: u32, c: bool, w: Width)
    ensures var (r, s) := SubBits(a, b, c, w);
            && (s.auxiliary <==> Mask(a, w) % 16 < Mask(b, w) % 16 + BitOf(c))
            && (s.parity <==> CountOnes(r, 8) % 2 == 0)
  {
    SubMeans(a, b, c, w);
    hide Bit, BitXor, BitAnd, SignOf, CountOnes, Mask, SignExtend, Fits, WrapSub;
    var x, y := Mask(a, w), Mask(b, w);
    var (r, s) := SubBits(a, b, c, w);
    MaskSmall(r, w);
    NibbleCarry(y, r, BitOf(c), x, BitOf(s.carry), w.Modulus());
    BorrowIsCarry(x % 16, y % 16, r % 16, BitOf(c));
    Rotated(x / 16 % 2, y / 16 % 2, r / 16 % 2, BitOf(y % 16 + r % 16 + BitOf(c) >= 16));
    FourthBits(x, y, r, y % 16 + r % 16 + BitOf(c) >= 16);
  }

  lemma BorrowIsCarry(x: nat, y: nat, r: nat, c: nat)
    requires x < 16 && y < 16 && r < 16 && c <= 1 && y + r + c == x + (if y + r + c >= 16 then 16 else 0)
    ensures y + r + c >= 16 <==> x < y + c
  {}

  lemma Rotated(x: nat, y: nat, r: nat, c: nat)
    requires x < 2 && y < 2 && r < 2 && c < 2 && x == (y + r + c) % 2
    ensures r == (x + y + c) % 2
  {}

  lemma FlagsAfter(eflags: u32, s: Status)
    ensures var e := MergeFlags(eflags, ARITHMETIC, FlagWord(s));
            && Bit(e, CARRY_BIT) == s.carry && Bit(e, PARITY_BIT) == s.parity && Bit(e, AUXILIARY_BIT) == s.auxiliary
            && Bit(e, ZERO_BIT) == s.zero && Bit(e, SIGN_BIT) == s.sign && Bit(e, OVERFLOW_BIT) == s.overflow
  {
    hide Bit, MergeFlags, FlagWord;
    forall k | k in {CARRY_BIT, PARITY_BIT, AUXILIARY_BIT, ZERO_BIT, SIGN_BIT, OVERFLOW_BIT}
      ensures Bit(MergeFlags(eflags, ARITHMETIC, FlagWord(s)), k) == Bit(FlagWord(s), k)
    {
      MergeBit(eflags, ARITHMETIC, FlagWord(s), k);
      MaskBit(k);
    }
    FlagBit(s, CARRY_BIT); FlagBit(s, PARITY_BIT); FlagBit(s, AUXILIARY_BIT);
    FlagBit(s, ZERO_BIT); FlagBit(s, SIGN_BIT); FlagBit(s, OVERFLOW_BIT);
  }

  /** The relation each condition code names after a comparison. */
  function Relation(code: ConditionCode, ua: int, ub: int, sa: int, sb: int): bool {
    match code
    case CcB => ua < ub case CcAe => ua >= ub case CcBe => ua <= ub case CcA => ua > ub
    case CcE => ua == ub case CcNe => ua != ub
    case CcL => sa < sb case CcGe => sa >= sb case CcLe => sa <= sb case CcG => sa > sb
    case _ => false
  }

  predicate Relational(code: ConditionCode) {
    code in {CcB, CcAe, CcBe, CcA, CcE, CcNe, CcL, CcGe, CcLe, CcG}
  }

  /** The flags of a comparison are its order relations. */
  lemma CompareFlags(a: u32, b: u32, w: Width)
    ensures var s := SubBits(a, b, false, w).1;
            && (s.carry <==> Mask(a, w) < Mask(b, w))
            && (s.zero <==> Mask(a, w) == Mask(b, w))
            && (s.zero <==> SignExtend(a, w) == SignExtend(b, w))
            && (s.sign != s.overflow <==> SignExtend(a, w) < SignExtend(b, w))
  {
    hide Bit, SubBits, Mask;
    var (r, s) := SubBits(a, b, false, w);
    SubMeans(a, b, false, w);
    MaskBound(a, w); MaskBound(b, w);
    MaskSmall(r, w);
    SignedOrder(Mask(a, w), Mask(b, w), r, if s.carry then 1 else 0, w.SignBit());
  }

  /** The sign of a wrapped difference, corrected by overflow, orders signed numbers. */
  lemma SignedOrder(x: int, y: int, r: int, c: int, h: int)
    requires 0 <= x < 2 * h && 0 <= y < 2 * h && 0 <= r < 2 * h && 0 <= c <= 1
    requires r - 2 * h * c == x - y
    ensures (ToSigned(r, h) < 0) != !(-h <= ToSigned(x, h) - ToSigned(y, h) < h) <==> ToSigned(x, h) < ToSigned(y, h)
    ensures r == 0 <==> x == y
    ensures c == 1 <==> x < y
  {
    if c == 0 {} else { assert c == 1; }
  }

  /**
   Compare then branch: after `cmp a, b` at any width, and whatever the other
   flags were, a relational condition is met exactly when the integers are so
   related, unsigned or signed as the condition says.
   */
  lemma CompareThenBranch(eflags: u32, a: u32, b: u32, w: Width, code: ConditionCode)
    requires Relational(code)
    ensures ConditionMet(MergeFlags(eflags, ARITHMETIC, FlagWord(SubBits(a, b, false, w).1)), code)
            == Relation(code, Mask(a, w), Mask(b, w), SignExtend(a, w), SignExtend(b, w))
  {
    hide Bit, MergeFlags, FlagWord, SubBits, ConditionMet, Mask, SignExtend;
    ConditionAfter(eflags, SubBits(a, b, false, w).1, code);
    CompareFlags(a, b, w);
  }

  lemma DwordMask(x: u32)
    ensures Mask(x, Dword) == x
  {}

  lemma Chain(low: int, high: int, c1: int, c2: int, la: int, ha: int, lb: int, hb: int)
    requires low + TWO32 * c1 == la + lb && high + TWO32 * c2 == ha + hb + c1
    ensures low + TWO32 * high + TWO32 * TWO32 * c2 == (la + TWO32 * ha) + (lb + TWO32 * hb)
  {}

  /** The carry flag one addition leaves for the next instruction. */
  function CarryAfter(eflags: u32, s: Status): bool {
    Bit(MergeFlags(eflags, ARITHMETIC, FlagWord(s)), CARRY_BIT)
  }

  /** `add` then `adc` is addition at twice the width, carry out included. */
  lemma AddThenAdc(lowA: u32, highA: u32, lowB: u32, highB: u32, eflags: u32)
    ensures var low := AddBits(lowA, lowB, false, Dword);
            var high := AddBits(highA, highB, CarryAfter(eflags, low.1), Dword);
            low.0 + TWO32 * high.0 + TWO32 * TWO32 * BitOf(high.1.carry)
            == (lowA + TWO32 * highA) + (lowB + TWO32 * highB)
  {
    var low := AddBits(lowA, lowB, false, Dword);
    FlagsAfter(eflags, low.1);
    var high := AddBits(highA, highB, low.1.carry, Dword);
    AddMeans(lowA, lowB, false, Dword);
    AddMeans(highA, highB, low.1.carry, Dword);
    DwordMask(lowA); DwordMask(lowB); DwordMask(highA); DwordMask(highB);
    hide Bit, MergeFlags, FlagWord, AddBits, Mask, Fits, SignExtend;
    Chain(low.0, high.0, BitOf(low.1.carry), BitOf(high.1.carry), lowA, highA, lowB, highB);
  }

  /** `sub` then `sbb` is subtraction at twice the width, borrow out included. */
  lemma SubThenSbb(lowA: u32, highA: u32, lowB: u32, highB: u32, eflags: u32)
    ensures var low := SubBits(lowA, lowB, false, Dword);
            var high := SubBits(highA, highB, CarryAfter(eflags, low.1), Dword);
            low.0 + TWO32 * high.0 - TWO32 * TWO32 * BitOf(high.1.carry)
            == (lowA + TWO32 * highA) - (lowB + TWO32 * highB)
  {
    var low := SubBits(lowA, lowB, false, Dword);
    FlagsAfter(eflags, low.1);
    var high := SubBits(highA, highB, low.1.carry, Dword);
    SubMeans(lowA, lowB, false, Dword);
    SubMeans(highA, highB, low.1.carry, Dword);
    DwordMask(lowA); DwordMask(lowB); DwordMask(highA); DwordMask(highB);
    hide Bit, MergeFlags, FlagWord, SubBits, Mask, Fits, SignExtend;
    Chain(low.0, high.0, 0 - BitOf(low.1.carry), 0 - BitOf(high.1.carry), lowA, highA, 0 - lowB, 0 - highB);
  }
}
