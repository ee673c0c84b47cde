/**
 What whole tier-0 steps do (exec.rs, `step_decoded`), said without the
 interpreter's own tables: the number an instruction computes, each bit of
 EFLAGS it leaves, what it writes, where execution goes on, and that nothing
 else changes.
 */
module StepLaws {
  import opened Words
  import opened Bits
  import opened GuestCpu
  import opened Iced
  import opened AluFlags
  import opened GuestMemory
  import opened Tier0
  import opened OperandLaws
  import opened InstructionLaws

  const TWO64: int := 0x1_0000_0000_0000_0000

  // --- the frame of a step ---------------------------------------------------------------

  /** A state with EFLAGS set, execution past an instruction of the one before, and one more counted. */
  function Finished(s: MState, u: MState, eflags: u32, len: u8): MState {
    MState(u.cpu.(eflags := eflags, eip := (s.cpu.eip + len) % TWO32, tsc := (s.cpu.tsc + 1) % TWO64), u.memory)
  }

  /** The step wrote one value to one operand; EFLAGS aside, nothing else changed. */
  predicate Wrote(s: MState, t: MState, i: Instruction, dst: Location, w: Width, value: u32) {
    WriteAt(s, dst, w, value).Ok? && t == Finished(s, WriteAt(s, dst, w, value).value, t.cpu.eflags, i.len)
  }

  /** The step left registers and memory alone. */
  predicate OnlyFlags(s: MState, t: MState, i: Instruction) { t == Finished(s, s, t.cpu.eflags, i.len) }

  /** Bit by bit: carry 0, parity 2, auxiliary carry 4, zero 6, sign 7, overflow 11; every other bit is kept. */
  ghost predicate FlagsLeft(before: u32, after: u32, st: Status, auxiliary: bool) {
    && Bit(after, 0) == st.carry && Bit(after, 2) == st.parity && Bit(after, 6) == st.zero
    && Bit(after, 7) == st.sign && Bit(after, 11) == st.overflow
    && Bit(after, 4) == (if auxiliary then st.auxiliary else Bit(before, 4))
    && forall k :: 0 <= k < 32 && k !in {0, 2, 4, 6, 7, 11} ==> Bit(after, k) == Bit(before, k)
  }

  lemma ArithmeticLeft(before: u32, st: Status)
    ensures FlagsLeft(before, MergeFlags(before, ARITHMETIC, FlagWord(st)), st, true)
    ensures FlagsLeft(before, MergeFlags(before, LOGIC_DEFINED, FlagWord(st)), st, false)
  {
    hide Bit, MergeFlags, FlagWord;
    forall k | 0 <= k < 32
      ensures Bit(MergeFlags(before, ARITHMETIC, FlagWord(st)), k) == (if k in {0, 2, 4, 6, 7, 11} then Bit(FlagWord(st), k) else Bit(before, k))
      ensures Bit(MergeFlags(before, LOGIC_DEFINED, FlagWord(st)), k) == (if k in {0, 2, 6, 7, 11} then Bit(FlagWord(st), k) else Bit(before, k))
    {
      MaskBit(k);
      MergeBit(before, ARITHMETIC, FlagWord(st), k);
      MergeBit(before, LOGIC_DEFINED, FlagWord(st), k);
    }
    FlagBit(st, 0); FlagBit(st, 2); FlagBit(st, 4); FlagBit(st, 6); FlagBit(st, 7); FlagBit(st, 11);
  }

  /** A straight-line step is its effect, then the move to the next instruction. */
  lemma StraightStep(s: MState, i: Instruction, t: MState) returns (u: MState)
    requires StepSpec(s, i) == Ok(t) && !IsBranch(i.mnemonic)
    ensures StraightLine(s, i) == Ok(u)
    ensures t == Retire(JumpTo(u, WrapAdd(u.cpu.eip, i.len)))
  {
    hide StraightLine, WrapAdd;
    u := StraightLine(s, i).value;
  }

  lemma WriteKeeps(s: MState, location: Location, w: Width, value: u32)
    requires WriteAt(s, location, w, value).Ok?
    ensures var u := WriteAt(s, location, w, value).value;
            u.cpu.eflags == s.cpu.eflags && u.cpu.eip == s.cpu.eip && u.cpu.tsc == s.cpu.tsc && u.cpu.segments == s.cpu.segments
  {
    hide StoreWidth, Mask, ReplaceLow, ReplaceHigh8;
  }

  /** The end of a step that merged some flags into a state as old as its start. */
  lemma FlagsFinish(s: MState, v: MState, defined: u32, st: Status, i: Instruction, t: MState)
    requires t == Retire(JumpTo(WithFlags(v, defined, st), WrapAdd(WithFlags(v, defined, st).cpu.eip, i.len)))
    requires v.cpu.eip == s.cpu.eip && v.cpu.tsc == s.cpu.tsc && v.cpu.eflags == s.cpu.eflags
    ensures t == Finished(s, v, t.cpu.eflags, i.len) && t.cpu.eflags == MergeFlags(s.cpu.eflags, defined, FlagWord(st))
  {
    hide MergeFlags, FlagWord;
  }

  /** The end of a step that left the flags of arithmetic. */
  lemma FlagsEnd(s: MState, v: MState, st: Status, i: Instruction, t: MState)
    requires t == Retire(JumpTo(WithFlags(v, ARITHMETIC, st), WrapAdd(WithFlags(v, ARITHMETIC, st).cpu.eip, i.len)))
    requires v.cpu.eip == s.cpu.eip && v.cpu.tsc == s.cpu.tsc && v.cpu.eflags == s.cpu.eflags
    ensures t == Finished(s, v, t.cpu.eflags, i.len) && FlagsLeft(s.cpu.eflags, t.cpu.eflags, st, true)
  {
    hide Retire, JumpTo, WithFlags, WrapAdd, Finished, FlagsLeft, MergeFlags, FlagWord;
    FlagsFinish(s, v, ARITHMETIC, st, i, t);
    ArithmeticLeft(s.cpu.eflags, st);
  }

  /** The end of a step that touched no flag. */
  lemma PlainFinish(s: MState, v: MState, i: Instruction, t: MState)
    requires t == Retire(JumpTo(v, WrapAdd(v.cpu.eip, i.len)))
    requires v.cpu.eip == s.cpu.eip && v.cpu.tsc == s.cpu.tsc && v.cpu.eflags == s.cpu.eflags
    ensures t == Finished(s, v, s.cpu.eflags, i.len) && t.cpu.eflags == s.cpu.eflags
  {}

  /** Which effect each mnemonic names. */
  lemma Dispatch(s: MState, i: Instruction)
    ensures i.mnemonic == Nop ==> StraightLine(s, i) == Ok(s)
    ensures i.mnemonic == Mov ==> StraightLine(s, i) == MovSpec(s, i)
    ensures i.mnemonic == Movzx ==> StraightLine(s, i) == Widen(s, i, false)
    ensures i.mnemonic == Movsx ==> StraightLine(s, i) == Widen(s, i, true)
    ensures i.mnemonic == Lea ==> StraightLine(s, i) == LeaSpec(s, i)
    ensures i.mnemonic == Xchg ==> StraightLine(s, i) == XchgSpec(s, i)
    ensures i.mnemonic == Xadd ==> StraightLine(s, i) == XaddSpec(s, i)
    ensures i.mnemonic == Cmpxchg ==> StraightLine(s, i) == CmpxchgSpec(s, i)
    ensures i.mnemonic == Cmpxchg8b ==> StraightLine(s, i) == Cmpxchg8bSpec(s, i)
    ensures i.mnemonic in {Inc, Dec, Neg, Not} ==> StraightLine(s, i) == Unary(s, i)
    ensures i.mnemonic == Setcc ==> StraightLine(s, i) == SetccSpec(s, i)
    ensures i.mnemonic == Cmovcc ==> StraightLine(s, i) == CmovSpec(s, i)
  {
    hide MovSpec, Widen, LeaSpec, XchgSpec, XaddSpec, CmpxchgSpec, Cmpxchg8bSpec, Unary, SetccSpec, CmovSpec, BinaryAlu, BitTestOp,
         PushSpec, PopSpec, PushadSpec, PopadSpec, LeaveSpec, ShiftOp;
  }

  // --- two-operand arithmetic and logic --------------------------------------------------------

  predicate IsAlu(m: Mnemonic) { m in {Add, Adc, Sub, Sbb, Cmp, And, Or, Xor, Test} }

  predicate IsLogic(m: Mnemonic) { m in {And, Or, Xor, Test} }

  /** The carry an instruction takes in. */
  function CarryIn(m: Mnemonic, eflags: u32): nat { if m in {Adc, Sbb} then BitOf(Bit(eflags, 0)) else 0 }

  /** A number around its width. */
  function Around(x: int, w: Width): u32 { x % w.Modulus() }

  /** The number the instruction computes, at its width. */
  function AluNumber(m: Mnemonic, a: u32, b: u32, c: nat, w: Width): u32
    requires c <= 1
  {
    if m in {Add, Adc} then Around(a + b + c, w)
    else if m in {Sub, Sbb, Cmp} then Around(a - b - c, w)
    else if m == Or then BitOr(a, b)
    else if m == Xor then BitXor(a, b)
    else BitAnd(a, b)
  }

  /** What a number itself says: parity of its low byte, zero, sign. */
  function NumberStatus(r: u32, carry: bool, auxiliary: bool, overflow: bool, w: Width): Status {
    Status(carry, CountOnes(r, 8) % 2 == 0, auxiliary, r == 0, SignExtend(r, w) < 0, overflow)
  }

  /** The status of a sum: what does not fit unsigned and signed, and the nibble's carry. */
  function SumStatus(a: u32, b: u32, c: nat, w: Width): Status
    requires c <= 1
  {
    NumberStatus(Around(a + b + c, w), a + b + c >= w.Modulus(), a % 16 + b % 16 + c >= 16,
                 !Fits(SignExtend(a, w) + SignExtend(b, w) + c, w), w)
  }

  function DifferenceStatus(a: u32, b: u32, c: nat, w: Width): Status
    requires c <= 1
  {
    NumberStatus(Around(a - b - c, w), a < b + c, a % 16 < b % 16 + c,
                 !Fits(SignExtend(a, w) - SignExtend(b, w) - c, w), w)
  }

  /** The status flags of an instruction. */
  function AluStatusOf(m: Mnemonic, a: u32, b: u32, c: nat, w: Width): Status
    requires c <= 1
  {
    if m in {Add, Adc} then SumStatus(a, b, c, w)
    else if m in {Sub, Sbb, Cmp} then DifferenceStatus(a, b, c, w)
    else NumberStatus(AluNumber(m, a, b, c, w), false, false, false, w)
  }

  lemma SumNumber(a: u32, b: u32, c: bool, w: Width)
    requires a < w.Modulus() && b < w.Modulus()
    ensures AddBits(a, b, c, w) == (Around(a + b + BitOf(c), w), SumStatus(a, b, BitOf(c), w))
  {
    hide Mask, Fits, SignExtend, CountOnes, ResultBits, BitXor, BitAnd, SignOf, Bit;
    AddMeans(a, b, c, w);
    AddNibble(a, b, c, w);
    MaskSmall(a, w);
    MaskSmall(b, w);
    SumWraps(a + b + BitOf(c), AddBits(a, b, c, w).0, AddBits(a, b, c, w).1.carry, w.Modulus());
  }

  lemma SumWraps(x: nat, r: nat, carry: bool, m: nat)
    requires r < m && r + (if carry then m else 0) == x
    ensures r == x % m && (carry <==> x >= m)
  {
    DivUnique(x, m, if carry then 1 else 0, r);
  }

  lemma DifferenceNumber(a: u32, b: u32, c: bool, w: Width)
    requires a < w.Modulus() && b < w.Modulus()
    ensures SubBits(a, b, c, w) == (Around(a - b - BitOf(c), w), DifferenceStatus(a, b, BitOf(c), w))
  {
    hide Mask, Fits, SignExtend, CountOnes, ResultBits, Bit, BitXor, BitAnd, SignOf, WrapSub;
    SubMeans(a, b, c, w);
    SubNibble(a, b, c, w);
    MaskSmall(a, w);
    MaskSmall(b, w);
    Wrapped(a - b - BitOf(c), SubBits(a, b, c, w).0, SubBits(a, b, c, w).1.carry, w.Modulus());
  }

  lemma LogicNumber(r: u32, w: Width)
    requires r < w.Modulus()
    ensures ResultBits(r, w) == NumberStatus(r, false, false, false, w)
  {
    hide CountOnes, Mask;
    MaskSmall(r, w);
    SignMeans(r, w);
  }

  /** Logic on numbers of a width stays within it. */
  lemma LogicBound(a: u32, b: u32, w: Width)
    requires a < w.Modulus() && b < w.Modulus()
    ensures BitAnd(a, b) < w.Modulus() && BitOr(a, b) < w.Modulus() && BitXor(a, b) < w.Modulus()
  {
    hide Bit, BitAnd, BitOr, BitXor;
    PowValues();
    var n := w.Bits();
    assert Pow2(n) == w.Modulus();
    forall k: nat | n <= k < 32 ensures !Bit(BitAnd(a, b), k) && !Bit(BitOr(a, b), k) && !Bit(BitXor(a, b), k) {
      HighBit(a, n, k); HighBit(b, n, k);
      BitAndBit(a, b, k); BitOrBit(a, b, k); BitXorBit(a, b, k);
    }
    BelowPower(BitAnd(a, b), n);
    BelowPower(BitOr(a, b), n);
    BelowPower(BitXor(a, b), n);
  }

  lemma BelowPower(x: u32, n: nat)
    requires n <= 32 && forall k: nat :: n <= k < 32 ==> !Bit(x, k)
    ensures x < Pow2(n)
  {
    hide Bit;
    var low := x % Pow2(n);
    LowBits(x, n, 0);
    DivMod(x, Pow2(n));
    MulDivBound(x, Pow2(n));
    forall k | 0 <= k < 32 ensures Bit(low, k) == Bit(x, k) { LowBits(x, n, k); }
    SameWord(x, low);
  }

  lemma MulDivBound(x: nat, d: nat)
    requires d > 0
    ensures x % d <= x
  {}

  /** What the interpreter's table gives for an instruction. */
  lemma AluEffectIs(m: Mnemonic, a: u32, b: u32, carry: bool, w: Width)
    requires IsAlu(m) && a < w.Modulus() && b < w.Modulus()
    ensures var c := if m in {Adc, Sbb} then BitOf(carry) else 0;
            Alu(m, a, b, carry, w) ==
            Some(AluEffect(AluNumber(m, a, b, c, w), AluStatusOf(m, a, b, c, w), if IsLogic(m) then LOGIC_DEFINED else ARITHMETIC, m !in {Cmp, Test}))
  {
    hide AddBits, SubBits, ResultBits, BitAnd, BitOr, BitXor, SumStatus, DifferenceStatus, NumberStatus, Around;
    if m in {Add, Adc} {
      SumNumber(a, b, m == Adc && carry, w);
    } else if m in {Sub, Sbb, Cmp} {
      DifferenceNumber(a, b, m == Sbb && carry, w);
    } else {
      LogicBound(a, b, w);
      LogicNumber(AluNumber(m, a, b, 0, w), w);
    }
  }

  /**
   ADD, ADC, SUB, SBB, AND, OR and XOR write the number they name to their
   destination, ADC and SBB with the carry flag; CMP and TEST write nothing. The
   flags are those of that number, logic keeping the auxiliary carry.
   */
  lemma AluMeans(s: MState, i: Instruction, w: Width, dst: Location, src: Location, a: u32, b: u32, t: MState)
    requires Operands(s, i, w, dst, src, a, b) && IsAlu(i.mnemonic) && StepSpec(s, i) == Ok(t)
    ensures i.mnemonic in {Cmp, Test} ==> OnlyFlags(s, t, i)
    ensures i.mnemonic !in {Cmp, Test} ==> Wrote(s, t, i, dst, w, AluNumber(i.mnemonic, a, b, CarryIn(i.mnemonic, s.cpu.eflags), w))
    ensures FlagsLeft(s.cpu.eflags, t.cpu.eflags, AluStatusOf(i.mnemonic, a, b, CarryIn(i.mnemonic, s.cpu.eflags), w), !IsLogic(i.mnemonic))
  {
    hide ReadAt, WriteAt, Locate, OperandWidth, Sized, Alu, AluNumber, AluStatusOf, Bit, MergeFlags, FlagWord, FlagsLeft, StepSpec;
    var u := StraightStep(s, i, t);
    var m, c := i.mnemonic, CarryIn(i.mnemonic, s.cpu.eflags);
    AluIsBinary(s, i);
    AluEffectIs(m, a, b, CarryFlag(s), w);
    var status := AluStatusOf(m, a, b, c, w);
    ArithmeticLeft(s.cpu.eflags, status);
    if m !in {Cmp, Test} { WriteKeeps(s, dst, w, AluNumber(m, a, b, c, w)); }
  }

  lemma AluIsBinary(s: MState, i: Instruction)
    requires IsAlu(i.mnemonic)
    ensures StraightLine(s, i) == BinaryAlu(s, i)
  {
    hide BinaryAlu;
  }

  lemma LogicIs(a: u32, b: u32, w: Width)
    ensures AluNumber(And, a, b, 0, w) == BitAnd(a, b) && AluNumber(Test, a, b, 0, w) == BitAnd(a, b)
    ensures AluNumber(Or, a, b, 0, w) == BitOr(a, b) && AluNumber(Xor, a, b, 0, w) == BitXor(a, b)
  {
    hide BitAnd, BitOr, BitXor;
  }

  /** The logic numbers, bit by bit. */
  lemma LogicBits(a: u32, b: u32, w: Width, k: nat)
    requires k < 32
    ensures Bit(AluNumber(And, a, b, 0, w), k) == (Bit(a, k) && Bit(b, k)) && Bit(AluNumber(Test, a, b, 0, w), k) == (Bit(a, k) && Bit(b, k))
    ensures Bit(AluNumber(Or, a, b, 0, w), k) == (Bit(a, k) || Bit(b, k)) && Bit(AluNumber(Xor, a, b, 0, w), k) == (Bit(a, k) != Bit(b, k))
  {
    hide Bit, BitAnd, BitOr, BitXor, AluNumber;
    LogicIs(a, b, w);
    BitAndBit(a, b, k);
    BitOrBit(a, b, k);
    BitXorBit(a, b, k);
  }

  /** ADD then ADC, as two steps, is addition at twice the width: the carry goes from one to the other through EFLAGS. */
  lemma AddThenAdc(s: MState, i: Instruction, d: Location, e: Location, la: u32, lb: u32, t: MState,
                   j: Instruction, f: Location, g: Location, ha: u32, hb: u32, u: MState)
    requires Operands(s, i, Dword, d, e, la, lb) && i.mnemonic == Add && StepSpec(s, i) == Ok(t)
    requires Operands(t, j, Dword, f, g, ha, hb) && j.mnemonic == Adc && StepSpec(t, j) == Ok(u)
    ensures ReadAt(t, d, Dword).Ok? && ReadAt(u, f, Dword).Ok?
    ensures ReadAt(t, d, Dword).value + TWO32 * ReadAt(u, f, Dword).value + TWO64 * BitOf(Bit(u.cpu.eflags, 0)) ==
            (la + TWO32 * ha) + (lb + TWO32 * hb)
  {
    hide StepSpec, Operands, ReadAt, Wrote, Bit, AluStatusOf;
    AluMeans(s, i, Dword, d, e, la, lb, t);
    AluMeans(t, j, Dword, f, g, ha, hb, u);
    WroteReads(s, t, i, Dword, d, e, la, lb);
    WroteReads(t, u, j, Dword, f, g, ha, hb);
    CarryOfSum(Add, la, lb, 0);
    CarryOfSum(Adc, ha, hb, BitOf(Bit(t.cpu.eflags, 0)));
    OperandBounds(s, i, Dword, d, e, la, lb);
  }

  lemma OperandBounds(s: MState, i: Instruction, w: Width, dst: Location, src: Location, a: u32, b: u32)
    requires Operands(s, i, w, dst, src, a, b)
    ensures a < w.Modulus() && b < w.Modulus() && Sized(s, dst, w)
  {}

  lemma CarryOfSum(m: Mnemonic, a: u32, b: u32, c: nat)
    requires (m == Add || m == Adc) && c <= 1
    ensures AluNumber(m, a, b, c, Dword) + TWO32 * BitOf(AluStatusOf(m, a, b, c, Dword).carry) == a + b + c
  {
    hide CountOnes, SignExtend, Fits;
    DivMod(a + b + c, TWO32);
  }

  /** What an arithmetic step wrote can be read back. */
  lemma WroteReads(s: MState, t: MState, i: Instruction, w: Width, dst: Location, src: Location, a: u32, b: u32)
    requires Operands(s, i, w, dst, src, a, b) && IsAlu(i.mnemonic) && i.mnemonic !in {Cmp, Test}
    requires Wrote(s, t, i, dst, w, AluNumber(i.mnemonic, a, b, CarryIn(i.mnemonic, s.cpu.eflags), w))
    ensures ReadAt(t, dst, w) == Ok(AluNumber(i.mnemonic, a, b, CarryIn(i.mnemonic, s.cpu.eflags), w))
  {
    hide AluNumber, Operands, ReadAt, WriteAt, Sized, Bit, Mask;
    OperandBounds(s, i, w, dst, src, a, b);
    NumberBound(i.mnemonic, a, b, CarryIn(i.mnemonic, s.cpu.eflags), w);
    var v := AluNumber(i.mnemonic, a, b, CarryIn(i.mnemonic, s.cpu.eflags), w);
    ReadBack(s, dst, w, v);
    MaskSmall(v, w);
    FinishedReads(s, WriteAt(s, dst, w, v).value, t.cpu.eflags, i.len, dst, w);
  }

  lemma NumberBound(m: Mnemonic, a: u32, b: u32, c: nat, w: Width)
    requires IsAlu(m) && c <= 1 && a < w.Modulus() && b < w.Modulus()
    ensures AluNumber(m, a, b, c, w) < w.Modulus()
  {
    hide BitAnd, BitOr, BitXor;
    LogicBound(a, b, w);
  }

  /** The end of a step does not show in operands. */
  lemma FinishedReads(s: MState, u: MState, eflags: u32, len: u8, location: Location, w: Width)
    ensures ReadAt(Finished(s, u, eflags, len), location, w).Ok? == ReadAt(u, location, w).Ok?
    ensures ReadAt(u, location, w).Ok? ==> ReadAt(Finished(s, u, eflags, len), location, w) == ReadAt(u, location, w)
  {
    hide LoadWidth, Mask;
  }

  /** SUB then SBB, as two steps, is subtraction at twice the width. */
  lemma SubThenSbb(s: MState, i: Instruction, d: Location, e: Location, la: u32, lb: u32, t: MState,
                   j: Instruction, f: Location, g: Location, ha: u32, hb: u32, u: MState)
    requires Operands(s, i, Dword, d, e, la, lb) && i.mnemonic == Sub && StepSpec(s, i) == Ok(t)
    requires Operands(t, j, Dword, f, g, ha, hb) && j.mnemonic == Sbb && StepSpec(t, j) == Ok(u)
    ensures ReadAt(t, d, Dword).Ok? && ReadAt(u, f, Dword).Ok?
    ensures ReadAt(t, d, Dword).value + TWO32 * ReadAt(u, f, Dword).value - TWO64 * BitOf(Bit(u.cpu.eflags, 0)) ==
            (la + TWO32 * ha) - (lb + TWO32 * hb)
  {
    hide StepSpec, Operands, ReadAt, Wrote, Bit, AluStatusOf;
    AluMeans(s, i, Dword, d, e, la, lb, t);
    AluMeans(t, j, Dword, f, g, ha, hb, u);
    WroteReads(s, t, i, Dword, d, e, la, lb);
    WroteReads(t, u, j, Dword, f, g, ha, hb);
    BorrowOfDifference(Sub, la, lb, 0);
    BorrowOfDifference(Sbb, ha, hb, BitOf(Bit(t.cpu.eflags, 0)));
  }

  lemma BorrowOfDifference(m: Mnemonic, a: u32, b: u32, c: nat)
    requires (m == Sub || m == Sbb) && c <= 1
    ensures AluNumber(m, a, b, c, Dword) - TWO32 * BitOf(AluStatusOf(m, a, b, c, Dword).carry) == a - b - c
  {
    hide CountOnes, SignExtend, Fits;
    DivUnique(a - b - c, TWO32, if a < b + c then -1 else 0, a - b - c + (if a < b + c then TWO32 else 0));
  }

  // --- conditions ------------------------------------------------------------------------------------

  /** What each condition asks of the number an arithmetic or logic step computed and of its status. */
  function Asks(code: ConditionCode, st: Status): bool {
    match code
    case CcNone => false
    case CcO => st.overflow case CcNo => !st.overflow
    case CcB => st.carry case CcAe => !st.carry
    case CcE => st.zero case CcNe => !st.zero
    case CcBe => st.carry || st.zero case CcA => !(st.carry || st.zero)
    case CcS => st.sign case CcNs => !st.sign
    case CcP => st.parity case CcNp => !st.parity
    case CcL => st.sign != st.overflow case CcGe => st.sign == st.overflow
    case CcLe => st.zero || st.sign != st.overflow case CcG => !st.zero && st.sign == st.overflow
  }

  lemma ConditionOf(before: u32, after: u32, st: Status, auxiliary: bool, code: ConditionCode)
    requires FlagsLeft(before, after, st, auxiliary)
    ensures ConditionMet(after, code) == Asks(code, st)
  {
    hide Bit;
  }

  /**
   After CMP a condition holds exactly when the operands are so related; after
   TEST, equal means that they share no bit and signed less that the top bits
   are both set.
   */
  lemma ConditionsMean(s: MState, i: Instruction, w: Width, dst: Location, src: Location, a: u32, b: u32, t: MState, code: ConditionCode)
    requires Operands(s, i, w, dst, src, a, b) && StepSpec(s, i) == Ok(t)
    ensures i.mnemonic == Cmp && Relational(code) ==>
              ConditionMet(t.cpu.eflags, code) == Relation(code, a, b, SignExtend(a, w), SignExtend(b, w))
    ensures i.mnemonic == Test && code == CcE ==> (ConditionMet(t.cpu.eflags, code) <==> forall k :: 0 <= k < 32 ==> !(Bit(a, k) && Bit(b, k)))
    ensures i.mnemonic == Test && code in {CcS, CcL} ==> (ConditionMet(t.cpu.eflags, code) <==> SignExtend(a, w) < 0 && SignExtend(b, w) < 0)
    ensures IsAlu(i.mnemonic) ==>
              ConditionMet(t.cpu.eflags, code) == Asks(code, AluStatusOf(i.mnemonic, a, b, CarryIn(i.mnemonic, s.cpu.eflags), w))
  {
    OperandBounds(s, i, w, dst, src, a, b);
    hide StepSpec, Operands, Bit, AluStatusOf, FlagsLeft, ConditionMet, SignExtend, Relation, Asks;
    if IsAlu(i.mnemonic) {
      AluMeans(s, i, w, dst, src, a, b, t);
      ConditionOf(s.cpu.eflags, t.cpu.eflags, AluStatusOf(i.mnemonic, a, b, CarryIn(i.mnemonic, s.cpu.eflags), w), !IsLogic(i.mnemonic), code);
    }
    if i.mnemonic == Cmp && Relational(code) { ComparesAs(a, b, w, code); }
    if i.mnemonic == Test { TestsAs(a, b, w); }
  }

  lemma ComparesAs(a: u32, b: u32, w: Width, code: ConditionCode)
    requires Relational(code) && a < w.Modulus() && b < w.Modulus()
    ensures Asks(code, AluStatusOf(Cmp, a, b, 0, w)) == Relation(code, a, b, SignExtend(a, w), SignExtend(b, w))
  {
    hide SignExtend, DifferenceStatus, SubBits;
    DifferenceNumber(a, b, false, w);
    CompareFlags(a, b, w);
    MaskSmall(a, w);
    MaskSmall(b, w);
  }

  lemma TestsAs(a: u32, b: u32, w: Width)
    requires a < w.Modulus() && b < w.Modulus()
    ensures Asks(CcE, AluStatusOf(Test, a, b, 0, w)) <==> forall k :: 0 <= k < 32 ==> !(Bit(a, k) && Bit(b, k))
    ensures Asks(CcS, AluStatusOf(Test, a, b, 0, w)) <==> SignExtend(a, w) < 0 && SignExtend(b, w) < 0
    ensures Asks(CcL, AluStatusOf(Test, a, b, 0, w)) <==> SignExtend(a, w) < 0 && SignExtend(b, w) < 0
  {
    hide Bit, BitAnd, CountOnes, SignExtend, AluStatusOf, AluNumber;
    TestStatus(a, b, w);
    SharesNoBit(a, b);
    NegativeBoth(a, b, w);
  }

  lemma TestStatus(a: u32, b: u32, w: Width)
    ensures AluStatusOf(Test, a, b, 0, w) == NumberStatus(BitAnd(a, b), false, false, false, w)
  {
    hide BitAnd, BitOr, BitXor, NumberStatus, SumStatus, DifferenceStatus;
  }

  lemma NegativeBoth(a: u32, b: u32, w: Width)
    requires a < w.Modulus() && b < w.Modulus()
    ensures SignExtend(BitAnd(a, b), w) < 0 <==> SignExtend(a, w) < 0 && SignExtend(b, w) < 0
  {
    hide Bit, BitAnd, SignExtend;
    LogicBound(a, b, w);
    SignBitOf(a, w); SignBitOf(b, w); SignBitOf(BitAnd(a, b), w);
    BitAndBit(a, b, w.Bits() - 1);
  }

  lemma SharesNoBit(a: u32, b: u32)
    ensures BitAnd(a, b) == 0 <==> forall k :: 0 <= k < 32 ==> !(Bit(a, k) && Bit(b, k))
  {
    hide Bit, BitAnd;
    var r := BitAnd(a, b);
    if r == 0 {
      forall k | 0 <= k < 32 ensures !(Bit(a, k) && Bit(b, k)) { BitAndBit(a, b, k); ZeroBit(k); }
    } else {
      var k := SomeBit(r);
      BitAndBit(a, b, k);
      assert Bit(a, k) && Bit(b, k);
    }
  }

  lemma SomeBit(x: u32) returns (k: nat)
    requires x != 0
    ensures k < 32 && Bit(x, k)
  {
    hide Bit;
    if forall k :: 0 <= k < 32 ==> !Bit(x, k) {
      forall k | 0 <= k < 32 ensures Bit(x, k) == Bit(0, k) { ZeroBit(k); }
      SameWord(x, 0);
    }
    k :| 0 <= k < 32 && Bit(x, k);
  }

  /** A number is negative at a width when its top bit is set. */
  lemma SignBitOf(a: u32, w: Width)
    requires a < w.Modulus()
    ensures SignExtend(a, w) < 0 <==> Bit(a, w.Bits() - 1)
  {
    hide Bit, Mask, SignOf;
    MaskSmall(a, w);
    PowValues();
    TopBit(a, w.Bits() - 1);
    SignMeans(a, w);
  }
}
