/**
 What single instructions compute, said in terms of their operands' values
 before and after (exec.rs): one-operand arithmetic, widening moves,
 compare-and-exchange, conditional sets and moves, and stack frames.
 */
module InstructionLaws {
  import opened Words
  import opened Bits
  import opened GuestCpu
  import opened Iced
  import opened AluFlags
  import opened GuestMemory
  import opened Tier0
  import opened OperandLaws
  import opened Tier0Laws

  // --- arithmetic of results ---------------------------------------------------------------

  /** A difference at a width: its value, when it is zero and when it borrows. */
  lemma DifferenceIs(a: u32, b: u32, w: Width)
    requires a < w.Modulus() && b < w.Modulus()
    ensures var (r, s) := SubBits(a, b, false, w);
            r == (a - b) % w.Modulus() && (s.zero <==> a == b) && (s.carry <==> a < b)
  {
    SubMeans(a, b, false, w);
    MaskSmall(a, w);
    MaskSmall(b, w);
    hide SubBits, Mask, Fits, SignExtend;
    var (r, s) := SubBits(a, b, false, w);
    Wrapped(a - b, r, s.carry, w.Modulus());
  }

  lemma Wrapped(d: int, r: nat, borrow: bool, m: nat)
    requires 0 <= r < m && r - (if borrow then m else 0) == d
    ensures r == d % m
  {
    DivUnique(d, m, if borrow then -1 else 0, r);
  }

  lemma SumZero(a: u32, b: u32, w: Width)
    requires a < w.Modulus() && b < w.Modulus()
    ensures AddBits(a, b, false, w).1.zero <==> (a + b) % w.Modulus() == 0
  {
    AddMeans(a, b, false, w);
    SumIs(a, b, w);
  }

  lemma NotIs(a: u32, w: Width)
    requires a < w.Modulus()
    ensures Mask(BitNot(a), w) == w.Modulus() - 1 - a
  {}

  /** The flags INC and DEC define: every status flag but carry. */
  lemma CountingFlags(eflags: u32, s: Status)
    ensures var e := MergeFlags(eflags, INCDEC_DEFINED, FlagWord(s));
            Bit(e, CARRY_BIT) == Bit(eflags, CARRY_BIT) && Bit(e, ZERO_BIT) == s.zero
  {
    var all := Status(false, true, true, true, true, true);
    assert FlagWord(all) == INCDEC_DEFINED;
    hide Bit, MergeFlags, FlagWord;
    FlagBit(all, CARRY_BIT); FlagBit(all, ZERO_BIT);
    FlagBit(s, ZERO_BIT);
    MergeBit(eflags, INCDEC_DEFINED, FlagWord(s), CARRY_BIT);
    MergeBit(eflags, INCDEC_DEFINED, FlagWord(s), ZERO_BIT);
  }

  // --- one operand -----------------------------------------------------------------------------

  /** The operand of a one-operand instruction, located and read. */
  predicate OneOperand(s: MState, i: Instruction, w: Width, dst: Location, a: u32) {
    && OperandWidth(s.cpu, i, 0) == Ok(w) && Locate(s.cpu, i, 0) == Ok(dst) && ReadAt(s, dst, w) == Ok(a)
    && Sized(s, dst, w) && a < w.Modulus()
  }

  function UnaryResult(m: Mnemonic, a: int, w: Width): int
    requires m in {Inc, Dec, Neg, Not}
  {
    if m == Inc then (a + 1) % w.Modulus()
    else if m == Dec then (a - 1) % w.Modulus()
    else if m == Neg then (0 - a) % w.Modulus()
    else w.Modulus() - 1 - a
  }

  /** What the instruction writes, and the flags it merges. */
  lemma UnaryParts(s: MState, i: Instruction, w: Width, dst: Location, a: u32, t: MState) returns (value: u32, written: MState)
    requires OneOperand(s, i, w, dst, a) && i.mnemonic in {Inc, Dec, Neg, Not} && Unary(s, i) == Ok(t)
    ensures WriteAt(s, dst, w, value) == Ok(written)
    ensures i.mnemonic == Inc ==> value == AddBits(a, 1, false, w).0 && t == WithFlags(written, INCDEC_DEFINED, AddBits(a, 1, false, w).1)
    ensures i.mnemonic == Dec ==> value == SubBits(a, 1, false, w).0 && t == WithFlags(written, INCDEC_DEFINED, SubBits(a, 1, false, w).1)
    ensures i.mnemonic == Neg ==> value == SubBits(0, a, false, w).0 && t == WithFlags(written, ARITHMETIC, SubBits(0, a, false, w).1)
    ensures i.mnemonic == Not ==> value == BitNot(a) && t == written
  {
    hide ReadAt, WriteAt, Locate, OperandWidth, Sized, Mask, ResultBits, WithFlags, BitNot;
    value := if i.mnemonic == Inc then AddBits(a, 1, false, w).0
             else if i.mnemonic == Dec then SubBits(a, 1, false, w).0
             else if i.mnemonic == Neg then SubBits(0, a, false, w).0
             else BitNot(a);
    written := WriteAt(s, dst, w, value).value;
  }

  lemma ResultFits(m: Mnemonic, a: u32, w: Width, value: u32)
    requires a < w.Modulus() && m in {Inc, Dec, Neg, Not}
    requires m == Inc ==> value == AddBits(a, 1, false, w).0
    requires m == Dec ==> value == SubBits(a, 1, false, w).0
    requires m == Neg ==> value == SubBits(0, a, false, w).0
    requires m == Not ==> value == BitNot(a)
    ensures Mask(value, w) == UnaryResult(m, a, w)
  {
    hide AddBits, SubBits, Mask, BitNot;
    if m == Inc {
      SumIs(a, 1, w);
    } else if m == Not {
      NotIs(a, w);
    } else {
      if m == Dec { DifferenceIs(a, 1, w); } else { DifferenceIs(0, a, w); }
      MaskSmall(value, w);
    }
  }

  /**
   INC and DEC step the operand modulo its width and keep the carry; NEG negates
   it and borrows unless it was zero; NOT complements it and touches no flag.
   */
  lemma UnaryMeans(s: MState, i: Instruction, w: Width, dst: Location, a: u32, t: MState)
    requires OneOperand(s, i, w, dst, a) && i.mnemonic in {Inc, Dec, Neg, Not} && Unary(s, i) == Ok(t)
    ensures 0 <= UnaryResult(i.mnemonic, a, w) < w.Modulus() && ReadAt(t, dst, w) == Ok(UnaryResult(i.mnemonic, a, w))
    ensures i.mnemonic in {Inc, Dec} ==> Bit(t.cpu.eflags, CARRY_BIT) == Bit(s.cpu.eflags, CARRY_BIT)
    ensures i.mnemonic == Neg ==> Bit(t.cpu.eflags, CARRY_BIT) == (a != 0)
    ensures i.mnemonic == Not ==> t.cpu.eflags == s.cpu.eflags
    ensures i.mnemonic != Not ==> Bit(t.cpu.eflags, ZERO_BIT) == (UnaryResult(i.mnemonic, a, w) == 0)
  {
    hide ReadAt, WriteAt, Locate, OperandWidth, Sized, Mask, AddBits, SubBits, Bit, MergeFlags, FlagWord, BitNot, Unary, UnaryResult;
    var value, written := UnaryParts(s, i, w, dst, a, t);
    ResultFits(i.mnemonic, a, w, value);
    ReadBack(s, dst, w, value);
    WriteKeepsFlags(s, dst, w, value);
    MaskBound(value, w);
    UnaryFlags(i.mnemonic, a, w);
    var status := UnaryStatus(i.mnemonic, a, w);
    FlagsApart(written, INCDEC_DEFINED, status, dst, w);
    FlagsApart(written, ARITHMETIC, status, dst, w);
    CountingFlags(s.cpu.eflags, status);
    FlagsAfter(s.cpu.eflags, status);
  }

  function UnaryStatus(m: Mnemonic, a: u32, w: Width): Status {
    if m == Inc then AddBits(a, 1, false, w).1 else if m == Dec then SubBits(a, 1, false, w).1 else SubBits(0, a, false, w).1
  }

  lemma UnaryFlags(m: Mnemonic, a: u32, w: Width)
    requires a < w.Modulus() && m in {Inc, Dec, Neg, Not}
    ensures m != Not ==> (UnaryStatus(m, a, w).zero <==> UnaryResult(m, a, w) == 0)
    ensures m == Neg ==> (UnaryStatus(m, a, w).carry <==> a != 0)
  {
    hide AddBits, SubBits;
    SumZero(a, 1, w);
    DifferenceIs(a, 1, w);
    DifferenceIs(0, a, w);
    StepsToZero(a, w.Modulus());
  }

  lemma StepsToZero(a: nat, m: nat)
    requires a < m && m > 1
    ensures (a - 1) % m == 0 <==> a == 1
    ensures (0 - a) % m == 0 <==> a == 0
  {
    if a > 0 { DivUnique(0 - a, m, -1, m - a); }
    if a == 0 { DivUnique(a - 1, m, -1, m - 1); } else { DivUnique(a - 1, m, 0, a - 1); }
  }

  lemma WriteKeepsFlags(s: MState, location: Location, w: Width, value: u32)
    requires WriteAt(s, location, w, value).Ok?
    ensures WriteAt(s, location, w, value).value.cpu.eflags == s.cpu.eflags
  {
    hide StoreWidth, Mask, ReplaceLow, ReplaceHigh8;
  }

  // --- widening moves ------------------------------------------------------------------------------

  /** Widening keeps the number: signed when sign-extending, unsigned when not. */
  lemma WidensTo(raw: u32, sw: Width, dw: Width)
    requires raw < sw.Modulus() && sw.Bytes() <= dw.Bytes()
    ensures Mask(Mask(raw, sw), dw) == raw
    ensures SignExtend(Mask(SignExtend(raw, sw) % TWO32, dw), dw) == SignExtend(raw, sw)
  {
    hide Mask;
    MaskSmall(raw, sw);
    MaskSmall(raw, dw);
    var v := SignExtend(raw, sw);
    var r := if v >= 0 then v else v + dw.Modulus();
    if v >= 0 {
      DivUnique(v, TWO32, 0, v);
      MaskSmall(v, dw);
    } else {
      DivUnique(v, TWO32, -1, v + TWO32);
      MaskNegative(v, dw);
    }
    MaskSmall(r, dw);
  }

  /** MOVZX and MOVSX leave the source's number in the destination. */
  lemma WidenMeans(s: MState, i: Instruction, signed: bool, dw: Width, sw: Width, dst: Location, src: Location, raw: u32, t: MState)
    requires OperandWidth(s.cpu, i, 0) == Ok(dw) && OperandWidth(s.cpu, i, 1) == Ok(sw) && sw.Bytes() <= dw.Bytes()
    requires Locate(s.cpu, i, 0) == Ok(dst) && Locate(s.cpu, i, 1) == Ok(src) && ReadAt(s, src, sw) == Ok(raw)
    requires Sized(s, dst, dw) && raw < sw.Modulus() && Widen(s, i, signed) == Ok(t)
    ensures ReadAt(t, dst, dw).Ok?
    ensures !signed ==> ReadAt(t, dst, dw) == Ok(raw)
    ensures signed ==> SignExtend(ReadAt(t, dst, dw).value, dw) == SignExtend(raw, sw)
  {
    hide ReadAt, WriteAt, Locate, OperandWidth, Sized, Mask, SignExtend;
    ReadBack(s, dst, dw, if signed then SignExtend(raw, sw) % TWO32 else Mask(raw, sw));
    WidensTo(raw, sw, dw);
  }

  // --- compare and exchange ---------------------------------------------------------------------------

  /**
   CMPXCHG: the zero flag says whether the destination held the accumulator; if
   it did, the destination holds the source and a separate accumulator is as it
   was; if not, the destination keeps its value and the accumulator has it too.
   */
  lemma CmpxchgMeans(s: MState, i: Instruction, w: Width, dst: Location, src: Location, a: u32, b: u32, held: u32, t: MState)
    requires Operands(s, i, w, dst, src, a, b) && ReadRegister(s.cpu, Accumulator(w)) == Ok(held)
    requires var accumulator := InRegister(Accumulator(w)); Separate(dst, accumulator) || dst == accumulator
    requires CmpxchgSpec(s, i) == Ok(t)
    ensures var accumulator := InRegister(Accumulator(w));
            && (Bit(t.cpu.eflags, ZERO_BIT) <==> held == a)
            && (held == a ==> ReadAt(t, dst, w) == Ok(b) && (Separate(dst, accumulator) ==> ReadAt(t, accumulator, w) == Ok(held)))
            && (held != a ==> ReadAt(t, dst, w) == Ok(a) && ReadAt(t, accumulator, w) == Ok(a))
  {
    AccumulatorFits(s, w, held);
    DifferenceIs(held, a, w);
    MaskSmall(a, w);
    MaskSmall(b, w);
    var accumulator := InRegister(Accumulator(w));
    var status := SubBits(held, a, false, w).1;
    var u := CmpxchgParts(s, i, w, dst, src, a, b, held, t);
    hide ReadAt, WriteAt, Locate, OperandWidth, Sized, Mask, SubBits, Bit, MergeFlags, FlagWord, CmpxchgSpec, Separate;
    FlagsApart(u, ARITHMETIC, status, dst, w);
    FlagsApart(u, ARITHMETIC, status, accumulator, w);
    FlagsAfter(u.cpu.eflags, status);
    if held == a {
      ReadBack(s, dst, w, b);
      if Separate(dst, accumulator) { WriteApart(s, dst, w, b, accumulator); }
    } else {
      var middle := WriteAt(s, dst, w, a).value;
      SameLocation(s, dst, w, a, held);
      ReadBack(s, dst, w, a);
      SeparateSymmetric(dst, accumulator);
      WriteApart(middle, accumulator, w, a, dst);
      ReadBack(middle, accumulator, w, a);
    }
  }

  /** A destination that is the accumulator always matches it. */
  lemma SameLocation(s: MState, dst: Location, w: Width, a: u32, held: u32)
    requires ReadAt(s, dst, w) == Ok(a) && ReadRegister(s.cpu, Accumulator(w)) == Ok(held) && held != a
    ensures dst != InRegister(Accumulator(w))
    ensures forall t: MState :: Sized(t, InRegister(Accumulator(w)), w)
  {
    hide LoadWidth;
  }

  lemma AccumulatorFits(s: MState, w: Width, held: u32)
    requires ReadRegister(s.cpu, Accumulator(w)) == Ok(held)
    ensures held < w.Modulus() && ReadAt(s, InRegister(Accumulator(w)), w) == Ok(held)
  {}

  /** The state CMPXCHG merges its flags into. */
  lemma CmpxchgParts(s: MState, i: Instruction, w: Width, dst: Location, src: Location, a: u32, b: u32, held: u32, t: MState)
    returns (u: MState)
    requires Operands(s, i, w, dst, src, a, b) && ReadRegister(s.cpu, Accumulator(w)) == Ok(held) && CmpxchgSpec(s, i) == Ok(t)
    ensures t == WithFlags(u, ARITHMETIC, SubBits(held, a, false, w).1)
    ensures held == a ==> WriteAt(s, dst, w, b) == Ok(u)
    ensures held != a ==> WriteAt(s, dst, w, a).Ok? && WriteAt(WriteAt(s, dst, w, a).value, InRegister(Accumulator(w)), w, a) == Ok(u)
  {
    hide ReadAt, WriteAt, ReadRegister, Locate, OperandWidth, Sized, Mask, ResultBits, WithFlags;
    u := if held == a then WriteAt(s, dst, w, b).value
         else WriteAt(WriteAt(s, dst, w, a).value, InRegister(Accumulator(w)), w, a).value;
  }

  // --- conditions ---------------------------------------------------------------------------------------

  /** SETcc leaves one or zero. */
  lemma SetccMeans(s: MState, i: Instruction, dst: Location, t: MState)
    requires Locate(s.cpu, i, 0) == Ok(dst) && Sized(s, dst, Byte) && SetccSpec(s, i) == Ok(t)
    ensures ReadAt(t, dst, Byte) == Ok(if ConditionMet(s.cpu.eflags, i.condition) then 1 else 0)
  {
    hide ReadAt, WriteAt, Locate, Sized, ConditionMet;
    ReadBack(s, dst, Byte, BitOf(ConditionMet(s.cpu.eflags, i.condition)));
  }

  /** CMOVcc moves when its condition holds and changes nothing when it does not. */
  lemma CmovMeans(s: MState, i: Instruction, w: Width, dst: Location, src: Location, a: u32, b: u32, t: MState)
    requires Operands(s, i, w, dst, src, a, b) && CmovSpec(s, i) == Ok(t)
    ensures ConditionMet(s.cpu.eflags, i.condition) ==> ReadAt(t, dst, w) == Ok(b)
    ensures !ConditionMet(s.cpu.eflags, i.condition) ==> t == s
  {
    hide ReadAt, WriteAt, Locate, OperandWidth, Sized, Mask, ConditionMet;
    if ConditionMet(s.cpu.eflags, i.condition) { ReadBack(s, dst, w, b); }
    MaskSmall(b, w);
  }

  // --- stack frames -----------------------------------------------------------------------------------------

  /** LEAVE undoes a pushed and repointed EBP, wherever ESP has gone in between. */
  lemma FrameThenLeave(s: MState, i: Instruction, t: MState, esp: u32)
    requires PushValue(s, Dword, Reg(s, Ebp)) == Ok(t) && i.near32
    requires s.memory.Load(WrapSub(Reg(s, Esp), 4), 4, ReadAccess).Ok?
    ensures LeaveSpec(SetReg(SetReg(t, Ebp, Reg(t, Esp)), Esp, esp), i) == Ok(MState(s.cpu, t.memory))
  {
    hide PushValue, LoadWidth, WrapAdd, WrapSub;
    PushThenLoad(s, Dword, Reg(s, Ebp), t);
    var framed := SetReg(SetReg(t, Ebp, Reg(t, Esp)), Esp, esp);
    assert Reg(framed, Ebp) == Reg(t, Esp) && framed.memory == t.memory;
    assert framed.cpu.gpr[4 := Reg(s, Esp)][5 := Reg(s, Ebp)] == s.cpu.gpr;
  }

  // --- LOOP -----------------------------------------------------------------------------

  /** The state after `k` executions of one instruction. */
  function Times(s: MState, i: Instruction, k: nat): Tier0.Outcome {
    if k == 0 then Ok(s) else
    var t :- Times(s, i, k - 1);
    Execute(t, i)
  }

  /** How often LOOP runs: ECX times, and a zero ECX stands for 2^32. */
  function LoopCount(s: MState): nat { if Reg(s, Ecx) == 0 then TWO32 else Reg(s, Ecx) }

  /** The state with so many runs of a LOOP at the starting address left. */
  function Looping(s: MState, i: Instruction, left: nat): MState {
    JumpTo(SetReg(s, Ecx, left % TWO32), if left > 0 then s.cpu.eip else Fallthrough(s, i))
  }

  lemma LoopOnce(s: MState, i: Instruction, left: nat)
    requires i.mnemonic == Loop && i.near32 && i.Op(0) == NearBranch32(s.cpu.eip) && 0 < left <= TWO32
    ensures Execute(Looping(s, i, left), i) == Ok(Looping(s, i, left - 1))
  {
    hide WrapAdd, StraightLine, Bit;
    var t := Looping(s, i, left);
    assert WrapSub(Reg(t, Ecx), 1) == left - 1;
    assert (left - 1) % TWO32 == left - 1;
    assert t.cpu.gpr[1 := left - 1] == s.cpu.gpr[1 := left - 1];
  }

  /**
   A LOOP that branches to itself runs exactly its count of times: it stays
   there until then, leaves with ECX zero, and changes nothing else.
   */
  lemma {:induction false} LoopRuns(s: MState, i: Instruction, k: nat)
    requires i.mnemonic == Loop && i.near32 && i.Op(0) == NearBranch32(s.cpu.eip) && k <= LoopCount(s)
    ensures Times(s, i, k) == Ok(Looping(s, i, LoopCount(s) - k))
  {
    hide Execute;
    if k == 0 {
      assert s.cpu.gpr[1 := s.cpu.gpr[1]] == s.cpu.gpr;
    } else {
      LoopRuns(s, i, k - 1);
      LoopOnce(s, i, LoopCount(s) - (k - 1));
    }
  }
}
