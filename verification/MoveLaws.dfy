/**
 Whole steps of the moves, exchanges, one-operand arithmetic and conditional
 instructions (exec.rs): the value written where, the flags left, and nothing
 else. Addresses and partial registers are given their arithmetic here too.
 */
module MoveLaws {
  import opened Words
  import opened Bits
  import opened GuestCpu
  import opened Iced
  import opened AluFlags
  import opened GuestMemory
  import opened Tier0
  import opened OperandLaws
  import opened InstructionLaws
  import opened StepLaws

  // --- registers and addresses -------------------------------------------------------------

  /** The general registers by name, in encoding order. */
  function Named(k: nat): Register
    requires k < 8
  {
    [EAX, ECX, EDX, EBX, ESP, EBP, ESI, EDI][k]
  }

  function Named16(k: nat): Register
    requires k < 8
  {
    [AX, CX, DX, BX, SP, BP, SI, DI][k]
  }

  /** The low bytes and the second bytes of the first four. */
  function NamedLow(k: nat): Register
    requires k < 4
  {
    [AL, CL, DL, BL][k]
  }

  function NamedHigh(k: nat): Register
    requires k < 4
  {
    [AH, CH, DH, BH][k]
  }

  /** Every register name reads its part of its register. */
  lemma RegistersMean(cpu: CpuState, k: nat)
    requires k < 8
    ensures ReadRegister(cpu, Named(k)) == Ok(cpu.gpr[k]) && RegisterSize(Named(k)) == 4
    ensures ReadRegister(cpu, Named16(k)) == Ok(cpu.gpr[k] % 0x1_0000) && RegisterSize(Named16(k)) == 2
    ensures k < 4 ==> ReadRegister(cpu, NamedLow(k)) == Ok(cpu.gpr[k] % 0x100) && RegisterSize(NamedLow(k)) == 1
    ensures k < 4 ==> ReadRegister(cpu, NamedHigh(k)) == Ok(cpu.gpr[k] / 0x100 % 0x100) && RegisterSize(NamedHigh(k)) == 1
  {
    WideSlots(k);
    if k < 4 { ByteSlots(k); }
    hide RegisterSlot, Named, Named16, NamedLow, NamedHigh;
  }

  lemma WideSlots(k: nat)
    requires k < 8
    ensures RegisterSlot(Named(k)) == Wide32(k) && RegisterSlot(Named16(k)) == Wide16(k)
  {}

  lemma ByteSlots(k: nat)
    requires k < 4
    ensures RegisterSlot(NamedLow(k)) == Low8(k) && RegisterSlot(NamedHigh(k)) == High8(k)
  {}

  /** Writing a 32-bit register by name sets exactly its slot. */
  lemma RegisterSets(cpu: CpuState, k: nat, value: u32)
    requires k < 8
    ensures WriteRegister(cpu, Named(k), value) == Ok(cpu.(gpr := cpu.gpr[k := value]))
  {
    WideSlots(k);
    hide RegisterSlot, Named;
  }

  /** An operand is as wide as its register or as its access to memory, one, two or four bytes; nothing else has a width. */
  lemma WidthMeans(cpu: CpuState, i: Instruction, index: nat, w: Width)
    ensures OperandWidth(cpu, i, index) == Ok(w) <==>
              match i.Op(index)
              case OpRegister(register) => RegisterSize(register) == w.Bits() / 8
              case OpMemory => i.memory.size == w.Bits() / 8
              case _ => false
    ensures OperandWidth(cpu, i, index).Err? ==> OperandWidth(cpu, i, index) == Err(Unsupported(cpu.eip))
  {
    hide RegisterSize;
  }

  /** What a register contributes to an address: its value if it is 32 bits wide, nothing if there is none. */
  function Contribution(cpu: CpuState, register: Register): Result<u32, ExecError> {
    if register == NoRegister then Ok(0)
    else if RegisterSize(register) == 4 then ReadRegister(cpu, register) else Err(Unsupported(cpu.eip))
  }

  /** The segment registers in encoding order. */
  function SegmentNamed(k: nat): Register
    requires k < 6
  {
    [ES, CS, SS, DS, FS, GS][k]
  }

  /** An effective address is base plus scaled index plus displacement, and the segment's base where it counts, modulo 2^32. */
  lemma AddressMeans(cpu: CpuState, m: MemoryParts, segment: nat, base: u32, index: u32)
    requires Contribution(cpu, m.base) == Ok(base) && Contribution(cpu, m.index) == Ok(index)
    requires segment < 6 && m.segment == SegmentNamed(segment)
    ensures EffectiveAddress(cpu, m, false) == Ok((base + index * m.scale + m.displacement) % TWO32)
    ensures EffectiveAddress(cpu, m, true) == Ok((base + index * m.scale + m.displacement + cpu.segments[segment]) % TWO32)
  {
    hide RegisterSlot, WrapAdd;
    SegmentMeans(cpu, segment);
    ContributionIs(cpu, m.base);
    ContributionIs(cpu, m.index);
    var scaled := index * m.scale;
    WrapSum(m.displacement, base, scaled);
    WrapSum(m.displacement, base + scaled, cpu.segments[segment]);
    WrapIs(m.displacement, base + scaled);
    WrapIs(m.displacement, base + scaled + cpu.segments[segment]);
  }

  lemma WrapIs(a: u32, x: int)
    ensures WrapAdd(a, x) == (x + a) % TWO32
  {}

  lemma SegmentMeans(cpu: CpuState, k: nat)
    requires k < 6
    ensures SegmentBase(cpu, SegmentNamed(k)) == Ok(cpu.segments[k])
  {}

  lemma ContributionIs(cpu: CpuState, register: Register)
    requires Contribution(cpu, register).Ok?
    ensures AddressRegister(cpu, register) == Contribution(cpu, register)
  {}

  /** Addresses through 16-bit registers, or any that is no general register, are refused. */
  lemma AddressRefused(cpu: CpuState, m: MemoryParts, withSegment: bool)
    requires Contribution(cpu, m.base).Err? || Contribution(cpu, m.index).Err?
    ensures EffectiveAddress(cpu, m, withSegment) == Err(Unsupported(cpu.eip))
  {
    hide WrapAdd, SegmentBase;
    RefusedIs(cpu, m.base);
    RefusedIs(cpu, m.index);
  }

  lemma RefusedIs(cpu: CpuState, register: Register)
    ensures Contribution(cpu, register).Err? ==> AddressRegister(cpu, register) == Err(Unsupported(cpu.eip))
    ensures AddressRegister(cpu, register).Err? ==> AddressRegister(cpu, register) == Err(Unsupported(cpu.eip))
  {}

  /** An immediate operand is its number, sign-extended to its form and cut to the operand's width. */
  lemma ImmediateMeans(s: MState, i: Instruction, index: nat, w: Width)
    ensures i.Op(index).Immediate8? ==> Constantly(s, i, index, w, i.Op(index).imm8)
    ensures i.Op(index).Immediate16? ==> Constantly(s, i, index, w, i.Op(index).imm16)
    ensures i.Op(index).Immediate32? ==> Constantly(s, i, index, w, i.Op(index).imm32)
    ensures i.Op(index).Immediate8to16? && w != Dword ==> Constantly(s, i, index, w, SignExtend(i.Op(index).imm8s16, Byte))
    ensures i.Op(index).Immediate8to32? ==> Constantly(s, i, index, w, SignExtend(i.Op(index).imm8s32, Byte))
  {
    hide EffectiveAddress, LoadWidth, ReadRegister, Mask, SignExtend, SignExtend8, SignExtend8to16;
    match i.Op(index)
    case Immediate8(v) => WidthMask(v, w);
    case Immediate16(v) => WidthMask(v, w);
    case Immediate32(v) => WidthMask(v, w);
    case Immediate8to16(v) => WidthMask(SignExtend8to16(v), w); if w != Dword { Extended16(v, w); }
    case Immediate8to32(v) => WidthMask(SignExtend8(v), w); Extended32(v, w);
    case _ =>
  }

  lemma Extended16(v: u8, w: Width)
    requires w != Dword
    ensures SignExtend8to16(v) % w.Modulus() == SignExtend(v, Byte) % w.Modulus()
  {
    if v >= 0x80 {
      assert SignExtend(v, Byte) == v - 0x100;
      if w == Byte { DivUnique(v - 0x100, 0x100, -1, v); DivUnique(0xFF00 + v, 0x100, 0xFF, v); } else { DivUnique(v - 0x100, 0x1_0000, -1, 0xFF00 + v); }
    }
  }

  lemma Extended32(v: u8, w: Width)
    ensures SignExtend8(v) % w.Modulus() == SignExtend(v, Byte) % w.Modulus()
  {
    if v >= 0x80 {
      assert SignExtend(v, Byte) == v - 0x100 && SignExtend8(v) == TWO32 + (v - 0x100);
      match w
      case Byte => DivUnique(v - 0x100, 0x100, -1, v); DivUnique(TWO32 + v - 0x100, 0x100, 0xFF_FFFF, v);
      case Word => DivUnique(v - 0x100, 0x1_0000, -1, 0xFF00 + v); DivUnique(TWO32 + v - 0x100, 0x1_0000, 0xFFFF, 0xFF00 + v);
      case Dword => DivUnique(v - 0x100, TWO32, -1, TWO32 + v - 0x100);
    }
  }

  /** The operand reads as a number, modulo its width. */
  predicate Constantly(s: MState, i: Instruction, index: nat, w: Width, number: int) {
    Locate(s.cpu, i, index).Ok? && ReadAt(s, Locate(s.cpu, i, index).value, w) == Ok(number % w.Modulus())
  }

  // --- the end of a step -----------------------------------------------------------------------

  /** The step wrote one value to one operand and changed nothing else, flags included. */
  predicate Moved(s: MState, t: MState, i: Instruction, dst: Location, w: Width, value: u32) {
    Wrote(s, t, i, dst, w, value) && t.cpu.eflags == s.cpu.eflags
  }

  /** A step whose effect is one write, and flags that are kept. */
  lemma MoveStep(s: MState, i: Instruction, t: MState, dst: Location, w: Width, value: u32)
    requires StepSpec(s, i) == Ok(t) && !IsBranch(i.mnemonic) && StraightLine(s, i) == WriteAt(s, dst, w, value)
    ensures Moved(s, t, i, dst, w, value)
  {
    hide StepSpec, StraightLine, WriteAt;
    var u := StraightStep(s, i, t);
    WriteKeeps(s, dst, w, value);
  }

  /** Values are cut to the operand's width when written. */
  lemma WriteCut(s: MState, dst: Location, w: Width, value: u32)
    ensures WriteAt(s, dst, w, value) == WriteAt(s, dst, w, Mask(value, w))
  {
    hide WriteRegister, Le;
    WidthMask(value, w);
    WidthBytes(w);
    LeTruncates(value, w.Bytes());
  }

  // --- moves ---------------------------------------------------------------------------------------

  /** NOP only counts. */
  lemma NopMeans(s: MState, i: Instruction, t: MState)
    requires i.mnemonic == Nop && StepSpec(s, i) == Ok(t)
    ensures OnlyFlags(s, t, i) && t.cpu.eflags == s.cpu.eflags
  {
    hide StepSpec, StraightLine, WrapAdd;
    Dispatch(s, i);
    var u := StraightStep(s, i, t);
    PlainFinish(s, s, i, t);
  }

  /** MOV writes the source's value. */
  lemma MovMeans(s: MState, i: Instruction, w: Width, dst: Location, src: Location, b: u32, t: MState)
    requires OperandWidth(s.cpu, i, 0) == Ok(w) && Locate(s.cpu, i, 0) == Ok(dst) && Locate(s.cpu, i, 1) == Ok(src) && ReadAt(s, src, w) == Ok(b)
    requires i.mnemonic == Mov && StepSpec(s, i) == Ok(t)
    ensures Moved(s, t, i, dst, w, b)
  {
    hide ReadAt, WriteAt, Locate, OperandWidth, StepSpec, StraightLine;
    Dispatch(s, i);
    MoveStep(s, i, t, dst, w, b);
  }

  /** MOVZX writes the source's unsigned number, MOVSX its signed one. */
  lemma WidenSteps(s: MState, i: Instruction, dw: Width, sw: Width, dst: Location, src: Location, raw: u32, t: MState)
    requires OperandWidth(s.cpu, i, 0) == Ok(dw) && OperandWidth(s.cpu, i, 1) == Ok(sw) && sw.Bytes() <= dw.Bytes()
    requires Locate(s.cpu, i, 0) == Ok(dst) && Locate(s.cpu, i, 1) == Ok(src) && ReadAt(s, src, sw) == Ok(raw) && raw < sw.Modulus()
    requires StepSpec(s, i) == Ok(t)
    ensures i.mnemonic == Movzx ==> Moved(s, t, i, dst, dw, raw)
    ensures i.mnemonic == Movsx ==> Moved(s, t, i, dst, dw, SignExtend(raw, sw) % dw.Modulus())
  {
    hide ReadAt, WriteAt, Locate, OperandWidth, StepSpec, StraightLine, SignExtend, Mask;
    Dispatch(s, i);
    MaskSmall(raw, sw);
    if i.mnemonic == Movzx { MoveStep(s, i, t, dst, dw, raw); }
    if i.mnemonic == Movsx {
      var v := SignExtend(raw, sw) % TWO32;
      WriteCut(s, dst, dw, v);
      CutTwice(SignExtend(raw, sw), dw);
      MoveStep(s, i, t, dst, dw, SignExtend(raw, sw) % dw.Modulus());
    }
  }

  lemma CutTwice(x: int, w: Width)
    ensures Mask(x % TWO32, w) == x % w.Modulus()
  {
    WidthMask(x % TWO32, w);
    var n := TWO32 / w.Modulus();
    DivMod(x, TWO32);
    DivMod(x % TWO32, w.Modulus());
    assert TWO32 * (x / TWO32) == w.Modulus() * (n * (x / TWO32));
    DivUnique(x, w.Modulus(), n * (x / TWO32) + x % TWO32 / w.Modulus(), x % TWO32 % w.Modulus());
  }

  /** LEA writes the address itself, without a segment base. */
  lemma LeaMeans(s: MState, i: Instruction, w: Width, dst: Register, base: u32, index: u32, segment: nat, t: MState)
    requires i.mnemonic == Lea && i.Op(0) == OpRegister(dst) && i.Op(1).OpMemory? && OperandWidth(s.cpu, i, 0) == Ok(w)
    requires Contribution(s.cpu, i.memory.base) == Ok(base) && Contribution(s.cpu, i.memory.index) == Ok(index)
    requires segment < 6 && i.memory.segment == SegmentNamed(segment) && StepSpec(s, i) == Ok(t)
    ensures Moved(s, t, i, InRegister(dst), w, (base + index * i.memory.scale + i.memory.displacement) % TWO32)
  {
    hide WriteAt, OperandWidth, StepSpec, StraightLine, EffectiveAddress, Contribution;
    Dispatch(s, i);
    AddressMeans(s.cpu, i.memory, segment, base, index);
    MoveStep(s, i, t, InRegister(dst), w, (base + index * i.memory.scale + i.memory.displacement) % TWO32);
  }

  /** A memory operand is the bytes at its address, little end first. */
  lemma MemoryOperandMeans(s: MState, i: Instruction, index: nat, base: u32, scaled: u32, segment: nat)
    requires i.Op(index).OpMemory? && segment < 6 && i.memory.segment == SegmentNamed(segment)
    requires Contribution(s.cpu, i.memory.base) == Ok(base) && Contribution(s.cpu, i.memory.index) == Ok(scaled)
    ensures Locate(s.cpu, i, index) ==
            Ok(InMemory((base + scaled * i.memory.scale + i.memory.displacement + s.cpu.segments[segment]) % TWO32))
  {
    hide EffectiveAddress, Contribution;
    AddressMeans(s.cpu, i.memory, segment, base, scaled);
  }

  // --- exchanges --------------------------------------------------------------------------------------

  /** XCHG writes each operand's value to the other. */
  lemma XchgMeans(s: MState, i: Instruction, w: Width, dst: Location, src: Location, a: u32, b: u32, t: MState) returns (first: MState, second: MState)
    requires Operands(s, i, w, dst, src, a, b) && i.mnemonic == Xchg && StepSpec(s, i) == Ok(t)
    ensures WriteAt(s, dst, w, b) == Ok(first) && WriteAt(first, src, w, a) == Ok(second)
    ensures t == Finished(s, second, s.cpu.eflags, i.len)
    ensures Separate(dst, src) ==> ReadAt(t, dst, w) == Ok(b) && ReadAt(t, src, w) == Ok(a)
  {
    hide ReadAt, WriteAt, Locate, OperandWidth, Sized, StepSpec, StraightLine, Separate;
    Dispatch(s, i);
    var u := StraightStep(s, i, t);
    first := WriteAt(s, dst, w, b).value;
    second := WriteAt(first, src, w, a).value;
    WriteKeeps(s, dst, w, b);
    WriteKeeps(first, src, w, a);
    if Separate(dst, src) {
      XchgSwaps(s, i, w, dst, src, a, b, u);
      FinishedReads(s, u, s.cpu.eflags, i.len, dst, w);
      FinishedReads(s, u, s.cpu.eflags, i.len, src, w);
    }
  }

  /** XADD writes the old destination to the source and the sum to the destination, with the sum's flags. */
  lemma XaddMeans(s: MState, i: Instruction, w: Width, dst: Location, src: Location, a: u32, b: u32, t: MState) returns (first: MState, second: MState)
    requires Operands(s, i, w, dst, src, a, b) && i.mnemonic == Xadd && StepSpec(s, i) == Ok(t)
    ensures WriteAt(s, src, w, a) == Ok(first) && WriteAt(first, dst, w, Around(a + b, w)) == Ok(second)
    ensures t == Finished(s, second, t.cpu.eflags, i.len)
    ensures FlagsLeft(s.cpu.eflags, t.cpu.eflags, SumStatus(a, b, 0, w), true)
  {
    hide Operands, WriteAt, StepSpec, StraightLine, XaddSpec, SumStatus, FlagsLeft, Finished, Retire, JumpTo, WithFlags, WrapAdd, Around;
    Dispatch(s, i);
    var u := StraightStep(s, i, t);
    first, second := XaddStates(s, i, w, dst, src, a, b, u);
    FlagsEnd(s, second, SumStatus(a, b, 0, w), i, t);
  }

  lemma XaddStates(s: MState, i: Instruction, w: Width, dst: Location, src: Location, a: u32, b: u32, u: MState) returns (first: MState, second: MState)
    requires Operands(s, i, w, dst, src, a, b) && XaddSpec(s, i) == Ok(u)
    ensures WriteAt(s, src, w, a) == Ok(first) && WriteAt(first, dst, w, Around(a + b, w)) == Ok(second)
    ensures u == WithFlags(second, ARITHMETIC, SumStatus(a, b, 0, w))
    ensures second.cpu.eip == s.cpu.eip && second.cpu.tsc == s.cpu.tsc && second.cpu.eflags == s.cpu.eflags
  {
    hide Operands, WriteAt, XaddSpec, AddBits, SumStatus, WithFlags, Around;
    OperandBounds(s, i, w, dst, src, a, b);
    first, second := XaddWrites(s, i, w, dst, src, a, b, u);
    SumNumber(a, b, false, w);
    WriteKeeps(s, src, w, a);
    WriteKeeps(first, dst, w, Around(a + b, w));
  }

  /** CMPXCHG compares the accumulator with the destination, writes as it must, and leaves the flags of the comparison. */
  lemma CmpxchgSteps(s: MState, i: Instruction, w: Width, dst: Location, src: Location, a: u32, b: u32, held: u32, t: MState)
    requires Operands(s, i, w, dst, src, a, b) && i.mnemonic == Cmpxchg && StepSpec(s, i) == Ok(t)
    requires ReadRegister(s.cpu, match w case Byte => AL case Word => AX case Dword => EAX) == Ok(held)
    ensures held == a ==> Wrote(s, t, i, dst, w, b)
    ensures held != a ==> WriteAt(s, dst, w, a).Ok?
                          && WriteAt(WriteAt(s, dst, w, a).value, InRegister(match w case Byte => AL case Word => AX case Dword => EAX), w, a).Ok?
                          && t == Finished(s, WriteAt(WriteAt(s, dst, w, a).value, InRegister(match w case Byte => AL case Word => AX case Dword => EAX), w, a).value,
                                           t.cpu.eflags, i.len)
    ensures FlagsLeft(s.cpu.eflags, t.cpu.eflags, DifferenceStatus(held, a, 0, w), true)
  {
    hide Operands, WriteAt, ReadRegister, StepSpec, StraightLine, CmpxchgSpec, SubBits, DifferenceStatus, FlagsLeft, MergeFlags, FlagWord,
         Finished, Retire, JumpTo, WithFlags, WrapAdd;
    AccumulatorFits(s, w, held);
    OperandBounds(s, i, w, dst, src, a, b);
    Dispatch(s, i);
    var u := StraightStep(s, i, t);
    var v := CmpxchgParts(s, i, w, dst, src, a, b, held, u);
    DifferenceNumber(held, a, false, w);
    if held == a {
      WriteKeeps(s, dst, w, b);
    } else {
      WriteKeeps(s, dst, w, a);
      WriteKeeps(WriteAt(s, dst, w, a).value, InRegister(Accumulator(w)), w, a);
    }
    FlagsEnd(s, v, DifferenceStatus(held, a, 0, w), i, t);
  }

  // --- one operand -------------------------------------------------------------------------------------------

  /** INC and DEC keep the carry as it was; the other flags are those of adding or subtracting one. */
  ghost predicate CountingLeft(before: u32, after: u32, st: Status) {
    FlagsLeft(before, after, st.(carry := Bit(before, 0)), true)
  }

  lemma CountingMerge(before: u32, st: Status)
    ensures CountingLeft(before, MergeFlags(before, INCDEC_DEFINED, FlagWord(st)), st)
  {
    hide Bit, MergeFlags, FlagWord;
    var all := Status(false, true, true, true, true, true);
    CountingMask();
    forall k | 0 <= k < 32
      ensures Bit(MergeFlags(before, INCDEC_DEFINED, FlagWord(st)), k) == (if k in {2, 4, 6, 7, 11} then Bit(FlagWord(st), k) else Bit(before, k))
    {
      FlagBit(all, k);
      MergeBit(before, INCDEC_DEFINED, FlagWord(st), k);
    }
    FlagBit(st, 2); FlagBit(st, 4); FlagBit(st, 6); FlagBit(st, 7); FlagBit(st, 11);
  }

  lemma CountingMask()
    ensures FlagWord(Status(false, true, true, true, true, true)) == INCDEC_DEFINED
  {
  }

  /** The number one of them writes, and the flags it merges. */
  lemma UnaryWrites(s: MState, i: Instruction, w: Width, dst: Location, a: u32, u: MState) returns (written: MState)
    requires OneOperand(s, i, w, dst, a) && i.mnemonic in {Inc, Dec, Neg, Not} && Unary(s, i) == Ok(u)
    ensures 0 <= UnaryResult(i.mnemonic, a, w) < w.Modulus() && WriteAt(s, dst, w, UnaryResult(i.mnemonic, a, w)) == Ok(written)
    ensures i.mnemonic == Inc ==> u == WithFlags(written, INCDEC_DEFINED, SumStatus(a, 1, 0, w))
    ensures i.mnemonic == Dec ==> u == WithFlags(written, INCDEC_DEFINED, DifferenceStatus(a, 1, 0, w))
    ensures i.mnemonic == Neg ==> u == WithFlags(written, ARITHMETIC, DifferenceStatus(0, a, 0, w))
    ensures i.mnemonic == Not ==> u == written
  {
    hide OneOperand, WriteAt, Unary, AddBits, SubBits, SumStatus, DifferenceStatus, UnaryResult, BitNot, Mask, WithFlags;
    OperandFits(s, i, w, dst, a);
    var value;
    value, written := UnaryParts(s, i, w, dst, a, u);
    ResultFits(i.mnemonic, a, w, value);
    WriteCut(s, dst, w, value);
    MaskBound(value, w);
    if i.mnemonic == Inc {
      SumNumber(a, 1, false, w);
    } else if i.mnemonic == Dec {
      DifferenceNumber(a, 1, false, w);
    } else {
      DifferenceNumber(0, a, false, w);
    }
  }

  /**
   INC, DEC, NEG and NOT write their number; the first two keep the carry, NEG
   has the flags of subtracting from zero, NOT touches none.
   */
  lemma UnarySteps(s: MState, i: Instruction, w: Width, dst: Location, a: u32, t: MState)
    requires OneOperand(s, i, w, dst, a) && i.mnemonic in {Inc, Dec, Neg, Not} && StepSpec(s, i) == Ok(t)
    ensures 0 <= UnaryResult(i.mnemonic, a, w) < w.Modulus() && Wrote(s, t, i, dst, w, UnaryResult(i.mnemonic, a, w))
    ensures i.mnemonic == Inc ==> CountingLeft(s.cpu.eflags, t.cpu.eflags, SumStatus(a, 1, 0, w))
    ensures i.mnemonic == Dec ==> CountingLeft(s.cpu.eflags, t.cpu.eflags, DifferenceStatus(a, 1, 0, w))
    ensures i.mnemonic == Neg ==> FlagsLeft(s.cpu.eflags, t.cpu.eflags, DifferenceStatus(0, a, 0, w), true)
    ensures i.mnemonic == Not ==> t.cpu.eflags == s.cpu.eflags
  {
    hide OneOperand, WriteAt, StepSpec, StraightLine, Unary, SumStatus, DifferenceStatus, FlagsLeft, CountingLeft, MergeFlags,
         FlagWord, UnaryResult, Finished, Retire, JumpTo, WithFlags, WrapAdd;
    var u := StraightStep(s, i, t);
    Dispatch(s, i);
    var written := UnaryWrites(s, i, w, dst, a, u);
    UnaryEnds(s, i, w, dst, a, written, u, t);
  }

  lemma UnaryEnds(s: MState, i: Instruction, w: Width, dst: Location, a: u32, written: MState, u: MState, t: MState)
    requires i.mnemonic in {Inc, Dec, Neg, Not} && 0 <= UnaryResult(i.mnemonic, a, w) < w.Modulus()
    requires WriteAt(s, dst, w, UnaryResult(i.mnemonic, a, w)) == Ok(written)
    requires i.mnemonic == Inc ==> u == WithFlags(written, INCDEC_DEFINED, SumStatus(a, 1, 0, w))
    requires i.mnemonic == Dec ==> u == WithFlags(written, INCDEC_DEFINED, DifferenceStatus(a, 1, 0, w))
    requires i.mnemonic == Neg ==> u == WithFlags(written, ARITHMETIC, DifferenceStatus(0, a, 0, w))
    requires i.mnemonic == Not ==> u == written
    requires t == Retire(JumpTo(u, WrapAdd(u.cpu.eip, i.len)))
    ensures Wrote(s, t, i, dst, w, UnaryResult(i.mnemonic, a, w))
    ensures i.mnemonic == Inc ==> CountingLeft(s.cpu.eflags, t.cpu.eflags, SumStatus(a, 1, 0, w))
    ensures i.mnemonic == Dec ==> CountingLeft(s.cpu.eflags, t.cpu.eflags, DifferenceStatus(a, 1, 0, w))
    ensures i.mnemonic == Neg ==> FlagsLeft(s.cpu.eflags, t.cpu.eflags, DifferenceStatus(0, a, 0, w), true)
    ensures i.mnemonic == Not ==> t.cpu.eflags == s.cpu.eflags
  {
    hide WriteAt, SumStatus, DifferenceStatus, FlagsLeft, CountingLeft, MergeFlags, FlagWord, UnaryResult, Retire, JumpTo, WithFlags, WrapAdd;
    WriteKeeps(s, dst, w, UnaryResult(i.mnemonic, a, w));
    if i.mnemonic == Not {
      PlainFinish(s, written, i, t);
    } else if i.mnemonic == Inc {
      FlagsFinish(s, written, INCDEC_DEFINED, SumStatus(a, 1, 0, w), i, t);
      CountingMerge(s.cpu.eflags, SumStatus(a, 1, 0, w));
    } else if i.mnemonic == Dec {
      FlagsFinish(s, written, INCDEC_DEFINED, DifferenceStatus(a, 1, 0, w), i, t);
      CountingMerge(s.cpu.eflags, DifferenceStatus(a, 1, 0, w));
    } else {
      FlagsEnd(s, written, DifferenceStatus(0, a, 0, w), i, t);
    }
  }

  lemma OperandFits(s: MState, i: Instruction, w: Width, dst: Location, a: u32)
    requires OneOperand(s, i, w, dst, a)
    ensures a < w.Modulus() && Sized(s, dst, w)
  {}

  // --- conditional instructions -----------------------------------------------------------------------------------

  /** After a comparison SETcc writes one exactly when the operands are so related. */
  lemma CompareThenSet(s: MState, i: Instruction, w: Width, dst: Location, src: Location, a: u32, b: u32, t: MState,
                       j: Instruction, to: Location, u: MState)
    requires Operands(s, i, w, dst, src, a, b) && i.mnemonic == Cmp && StepSpec(s, i) == Ok(t)
    requires j.mnemonic == Setcc && Relational(j.condition) && Locate(t.cpu, j, 0) == Ok(to) && StepSpec(t, j) == Ok(u)
    ensures Moved(t, u, j, to, Byte, if Relation(j.condition, a, b, SignExtend(a, w), SignExtend(b, w)) then 1 else 0)
  {
    hide Operands, WriteAt, Locate, StepSpec, StraightLine, ConditionMet, Relation, SignExtend;
    Dispatch(t, j);
    ConditionsMean(s, i, w, dst, src, a, b, t, j.condition);
    MoveStep(t, j, u, to, Byte, BitOf(ConditionMet(t.cpu.eflags, j.condition)));
  }

  /** After a comparison CMOVcc moves exactly when the operands are so related, and otherwise only counts. */
  lemma CompareThenMove(s: MState, i: Instruction, w: Width, dst: Location, src: Location, a: u32, b: u32, t: MState,
                        j: Instruction, v: Width, to: Location, from: Location, x: u32, y: u32, u: MState)
    requires Operands(s, i, w, dst, src, a, b) && i.mnemonic == Cmp && StepSpec(s, i) == Ok(t)
    requires Operands(t, j, v, to, from, x, y) && j.mnemonic == Cmovcc && Relational(j.condition) && StepSpec(t, j) == Ok(u)
    ensures Relation(j.condition, a, b, SignExtend(a, w), SignExtend(b, w)) ==> Moved(t, u, j, to, v, y)
    ensures !Relation(j.condition, a, b, SignExtend(a, w), SignExtend(b, w)) ==> OnlyFlags(t, u, j) && u.cpu.eflags == t.cpu.eflags
  {
    hide Operands, CmovSpec, WriteAt, StepSpec, StraightLine, ConditionMet, Relation, SignExtend, Retire, JumpTo, WrapAdd;
    Dispatch(t, j);
    CmovIs(t, j, v, to, from, x, y);
    ConditionsMean(s, i, w, dst, src, a, b, t, j.condition);
    if ConditionMet(t.cpu.eflags, j.condition) {
      MoveStep(t, j, u, to, v, y);
    } else {
      var middle := StraightStep(t, j, u);
      PlainFinish(t, t, j, u);
    }
  }

  lemma CmovIs(t: MState, j: Instruction, v: Width, to: Location, from: Location, x: u32, y: u32)
    requires Operands(t, j, v, to, from, x, y)
    ensures CmovSpec(t, j) == if ConditionMet(t.cpu.eflags, j.condition) then WriteAt(t, to, v, y) else Ok(t)
  {
    hide ReadAt, WriteAt, Locate, OperandWidth, Sized, ConditionMet;
  }
}
