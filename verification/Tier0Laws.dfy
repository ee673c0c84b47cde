/** Laws that tie tier-0 instructions to one another, and the interpreter tier to the emitter's oracle. */
module Tier0Laws {
  import opened Words
  import opened Bits
  import opened GuestCpu
  import opened Iced
  import opened AluFlags
  import opened GuestMemory
  import opened Tier0
  import opened RegisterOnly
  import opened HostMachine
  import opened FlagAgreement
  import opened DirectEmitter
  import opened EmitterProof

  // --- the stack undoes itself ---------------------------------------------------

  lemma WrapBack(a: u32, n: nat)
    ensures WrapAdd(WrapSub(a, n), n) == a
  {
    DivMod(a - n, TWO32);
    DivUnique(WrapSub(a, n) + n, TWO32, 0 - (a - n) / TWO32, a);
  }

  /** What was pushed is on top of the stack, and popping it restores ESP. */
  lemma PushThenLoad(s: MState, w: Width, value: u32, t: MState)
    requires value < w.Modulus() && PushValue(s, w, value) == Ok(t)
    requires s.memory.Load(WrapSub(Reg(s, Esp), w.Bytes()), w.Bytes(), ReadAccess).Ok?
    ensures LoadWidth(t.memory, Reg(t, Esp), w) == Ok(value)
    ensures WrapAdd(Reg(t, Esp), w.Bytes()) == Reg(s, Esp)
    ensures t.cpu == s.cpu.Set(Esp, Reg(t, Esp))
  {
    hide Le, FromLe, WrapSub, WrapAdd;
    var esp := WrapSub(Reg(s, Esp), w.Bytes());
    LoadAfterStore(s.memory, esp, Le(value, w.Bytes()));
    WidthBytes(w);
    FromLeOfLe(value, w.Bytes());
    WrapBack(Reg(s, Esp), w.Bytes());
  }

  /** A return right after a call resumes behind the call, with every register as it was. */
  lemma CallThenRet(s: MState, call: Instruction, t: MState, ret: Instruction)
    requires CallSpec(s, call) == Ok(t)
    requires ret.near32 && !ret.Op(0).Immediate16?
    requires s.memory.Load(WrapSub(Reg(s, Esp), 4), 4, ReadAccess).Ok?
    ensures RetSpec(t, ret) == Ok(MState(s.cpu.(eip := Fallthrough(s, call)), t.memory))
  {
    hide BranchTarget, LoadWidth, PushValue, WrapSub, WrapAdd;
    var pushed := PushValue(s, Dword, Fallthrough(s, call)).value;
    PushThenLoad(s, Dword, Fallthrough(s, call), pushed);
    assert WrapAdd(Reg(s, Esp), 0) == Reg(s, Esp) by { WrapZero(Reg(s, Esp)); }
    assert s.cpu.gpr == pushed.cpu.gpr[4 := Reg(s, Esp)];
  }

  lemma FrameSlot(a: seq<u8>, b: seq<u8>, c: seq<u8>, d: seq<u8>, e: seq<u8>, f: seq<u8>, g: seq<u8>, h: seq<u8>)
    requires |a| == 4 && |b| == 4 && |c| == 4 && |d| == 4 && |e| == 4 && |f| == 4 && |g| == 4 && |h| == 4
    ensures var frame := a + b + c + d + e + f + g + h;
            && |frame| == 32
            && frame[0..4] == a && frame[4..8] == b && frame[8..12] == c && frame[12..16] == d
            && frame[16..20] == e && frame[20..24] == f && frame[24..28] == g && frame[28..32] == h
  {}

  lemma FrameHolds(s: MState)
    ensures |PushadFrame(s)| == 32
    ensures var words := FrameWords(PushadFrame(s));
            && words[0] == Reg(s, Edi) && words[1] == Reg(s, Esi) && words[2] == Reg(s, Ebp) && words[4] == Reg(s, Ebx)
            && words[5] == Reg(s, Edx) && words[6] == Reg(s, Ecx) && words[7] == Reg(s, Eax)
  {
    hide Le32, FromLe32;
    FrameSlot(Le32(Reg(s, Edi)), Le32(Reg(s, Esi)), Le32(Reg(s, Ebp)), Le32(Reg(s, Esp)),
              Le32(Reg(s, Ebx)), Le32(Reg(s, Edx)), Le32(Reg(s, Ecx)), Le32(Reg(s, Eax)));
  }

  /** POPAD right after PUSHAD restores all eight registers. */
  lemma PushadThenPopad(s: MState, t: MState)
    requires PushadSpec(s) == Ok(t)
    requires s.memory.Load(WrapSub(Reg(s, Esp), 32), 32, ReadAccess).Ok?
    ensures PopadSpec(t) == Ok(MState(s.cpu, t.memory))
  {
    var frame := PushadFrame(s);
    FrameHolds(s);
    LoadAfterStore(s.memory, WrapSub(Reg(s, Esp), 32), frame);
    WrapBack(Reg(s, Esp), 32);
    Restores(FrameWords(frame), s);
    hide PushadFrame, FrameWords, WrapSub, WrapAdd, RestoredRegisters;
  }

  lemma Restores(words: seq<u32>, s: MState)
    requires |words| == 8
    requires words[0] == Reg(s, Edi) && words[1] == Reg(s, Esi) && words[2] == Reg(s, Ebp) && words[4] == Reg(s, Ebx)
    requires words[5] == Reg(s, Edx) && words[6] == Reg(s, Ecx) && words[7] == Reg(s, Eax)
    ensures RestoredRegisters(words, Reg(s, Esp)) == s.cpu.gpr
  {}

  // --- tier 0 agrees with the emitter's oracle -----------------------------------------

  /** At 32 bits and without carry-in, the width-parametric flags are the oracle's. */
  lemma LegacyAgrees(a: u32, b: u32)
    ensures AddBits(a, b, false, Dword) == (WrapAdd(a, b), AddStatus(a, b, WrapAdd(a, b)))
    ensures SubBits(a, b, false, Dword) == (WrapSub(a, b), SubStatus(a, b, WrapSub(a, b)))
    ensures forall r: u32 :: ResultBits(r, Dword) == ResultStatus(r)
  {
    hide AddBits, SubBits, AddStatus, SubStatus, ResultBits, ResultStatus;
    LegacyAdd(a, b);
    LegacySub(a, b);
    forall r: u32 ensures ResultBits(r, Dword) == ResultStatus(r) { LegacyResult(r); }
  }

  lemma LegacyResult(r: u32)
    ensures ResultBits(r, Dword) == ResultStatus(r)
  {
    hide Bit, CountOnes, Mask;
    DwordMask(r);
  }

  lemma LegacyAdd(a: u32, b: u32)
    ensures AddBits(a, b, false, Dword) == (WrapAdd(a, b), AddStatus(a, b, WrapAdd(a, b)))
  {
    hide Bit, BitXor, BitAnd, CountOnes, Mask, ResultBits, ResultStatus;
    DwordMask(a); DwordMask(b);
    MaskSum(a, b, 0, Dword);
    AddResult(a, b, 0, TWO32);
    LegacyResult(WrapAdd(a, b));
  }

  lemma LegacySub(a: u32, b: u32)
    ensures SubBits(a, b, false, Dword) == (WrapSub(a, b), SubStatus(a, b, WrapSub(a, b)))
  {
    hide Bit, BitXor, BitAnd, CountOnes, Mask, ResultBits, ResultStatus, WrapSub;
    DwordMask(a); DwordMask(b);
    assert WrapSub(WrapSub(a, b), 0) == WrapSub(a, b) by { WrapSubNone(WrapSub(a, b)); }
    DwordMask(WrapSub(a, b));
    LegacyResult(WrapSub(a, b));
  }

  lemma WrapSubNone(a: u32)
    ensures WrapSub(a, 0) == a
  {}

  /** The tier-0 register a subset register names. */
  lemma GprNames(register: Register)
    ensures match GprFromRegister(register)
            case None => true
            case Some(g) => RegisterSlot(register) == Wide32(Index(g))
  {}

  function OpLocation(src: RegisterOperand): Location {
    match src
    case FromGpr(g) => InRegister(match g case Eax => EAX case Ecx => ECX case Edx => EDX case Ebx => EBX
                                          case Esp => ESP case Ebp => EBP case Esi => ESI case Edi => EDI)
    case Immediate(value) => Constant(value)
  }

  lemma RegisterOfGpr(register: Register)
    requires GprFromRegister(register).Some?
    ensures OpLocation(FromGpr(GprFromRegister(register).value)) == InRegister(register)
  {}

  /** The subset's operands resolve and read in tier 0 as the oracle reads them. */
  lemma OperandsAgree(s: MState, i: Instruction)
    requires Gpr32(i, 0).Some? && Source(i).Some?
    ensures OperandWidth(s.cpu, i, 0) == Ok(Dword)
    ensures Locate(s.cpu, i, 0) == Ok(OpLocation(FromGpr(Gpr32(i, 0).value)))
    ensures Locate(s.cpu, i, 1) == Ok(OpLocation(Source(i).value))
    ensures ReadAt(s, OpLocation(FromGpr(Gpr32(i, 0).value)), Dword) == Ok(s.cpu.Get(Gpr32(i, 0).value))
    ensures ReadAt(s, OpLocation(Source(i).value), Dword) == Ok(RegisterOnly.ReadOperand(s.cpu, Source(i).value))
  {
    hide GprFromRegister, RegisterSlot, OpLocation;
    var dst := i.Op(0).register;
    GprNames(dst);
    RegisterOfGpr(dst);
    match i.Op(1)
    case OpRegister(register) => GprNames(register); RegisterOfGpr(register);
    case Immediate32(value) => ConstantLocation(value); DwordMask(value);
    case Immediate8to32(value) => ConstantLocation(SignExtend8(value)); DwordMask(SignExtend8(value));
    case _ =>
  }

  lemma ConstantLocation(value: u32)
    ensures OpLocation(Immediate(value)) == Constant(value)
  {}

  lemma WriteAgrees(s: MState, g: Gpr, value: u32)
    ensures WriteAt(s, OpLocation(FromGpr(g)), Dword, value) == Ok(s.(cpu := s.cpu.Set(g, value)))
  {
    DwordMask(value);
    hide Mask;
  }

  /** The straight-line effect of a subset instruction is the oracle's, flags included. */
  lemma EffectAgrees(s: MState, i: Instruction)
    requires Classify(i).Some?
    ensures StraightLine(s, i) == Ok(s.(cpu := Apply(s.cpu, Classify(i).value)))
  {
    hide OperandWidth, Locate, ReadAt, WriteAt, AddBits, SubBits, ResultBits, AddStatus, SubStatus, ResultStatus,
         MergeFlags, FlagWord, Gpr32, Source, BitAnd, BitOr, BitXor, WrapAdd, WrapSub,
         Widen, LeaSpec, XchgSpec, XaddSpec, CmpxchgSpec, Cmpxchg8bSpec, Unary, BitTestOp, ShiftOp, PushSpec, PopSpec,
         PushadSpec, PopadSpec, LeaveSpec, SetccSpec, CmovSpec;
    match Classify(i).value
    case RegNop =>
    case RegMov(dst, src) =>
      OperandsAgree(s, i);
      WriteAgrees(s, dst, RegisterOnly.ReadOperand(s.cpu, src));
    case RegAlu(op, dst, src) =>
      OperandsAgree(s, i);
      var a, b := s.cpu.Get(dst), RegisterOnly.ReadOperand(s.cpu, src);
      LegacyAgrees(a, b);
      WriteAgrees(s, dst, AluResult(op, a, b));
  }

  /**
   Tier agreement: on every instruction of the register-only subset, tier 0 does
   what the emitter's oracle does, and also counts the instruction.
   */
  lemma TiersAgree(s: MState, i: Instruction)
    requires Classify(i).Some?
    ensures StepSpec(s, i) == Ok(Retire(s.(cpu := StepRegisterOnly(s.cpu, i).value)))
  {
    EffectAgrees(s, i);
    ApplyKeepsEip(s.cpu, Classify(i).value, s.cpu.eip);
    SubsetIsStraight(s, i);
    hide StraightLine, WrapAdd, Classify, Apply, Execute;
  }

  lemma SubsetIsStraight(s: MState, i: Instruction)
    requires Classify(i).Some?
    ensures Execute(s, i) == Advance(StraightLine(s, i), i)
  {
    hide StraightLine, Advance, JmpSpec, CallSpec, RetSpec, JccSpec, LoopSpec, JecxzSpec, Gpr32, Source;
  }

  /** Running tier 0 over a list of instructions. */
  function Tier0Run(s: MState, instructions: seq<Instruction>): Tier0.Outcome {
    if instructions == [] then Ok(s) else
    match Tier0Run(s, instructions[..|instructions| - 1])
    case Err(e) => Err(e)
    case Ok(t) => StepSpec(t, instructions[|instructions| - 1])
  }

  function AtTsc(cpu: CpuState, tsc: u64): CpuState { cpu.(tsc := tsc) }

  lemma StepIgnoresTsc(cpu: CpuState, i: Instruction, tsc: u64)
    requires Classify(i).Some?
    ensures StepRegisterOnly(cpu, i).Some?
    ensures StepRegisterOnly(AtTsc(cpu, tsc), i) == Some(AtTsc(StepRegisterOnly(cpu, i).value, tsc))
  {
    hide Classify, MergeFlags, FlagWord, AluStatus, AluResult, WrapAdd;
  }

  lemma {:induction false} Tier0RunAgrees(s: MState, instructions: seq<Instruction>)
    requires AllClassified(instructions)
    ensures Tier0Run(s, instructions).Ok? && StepAll(s.cpu, instructions).Some?
    ensures var t := Tier0Run(s, instructions).value;
            t.memory == s.memory && t.cpu == AtTsc(StepAll(s.cpu, instructions).value, t.cpu.tsc)
  {
    hide Classify, StepSpec, StepRegisterOnly;
    if instructions != [] {
      var init, last := instructions[..|instructions| - 1], instructions[|instructions| - 1];
      Tier0RunAgrees(s, init);
      var t := Tier0Run(s, init).value;
      TiersAgree(t, last);
      StepIgnoresTsc(StepAll(s.cpu, init).value, last, t.cpu.tsc);
    }
  }

  /**
   The two tiers are one machine: entering the emitted block leaves in the host
   image exactly the registers, flags and EIP the interpreter reaches over the
   translated instructions. The time-stamp counter is the one difference: only
   the interpreter advances it.
   */
  lemma EmittedMatchesTier0(block: DecodedBlock, e: EmittedBlock, s: MState, h: Host)
    requires block.Contiguous() && Compiled(block, e)
    requires s.cpu.eip == block.start && Holds(h.memory, s.cpu) && |h.stack| > 0
    ensures var out := Run(e.bytes, h);
            var t := Tier0Run(s, block.instructions[..e.translated]);
            && out.Returned? && t.Ok?
            && Holds(out.host.memory, t.value.cpu) && t.value.memory == s.memory
            && t.value.cpu.eip == e.exitEip
            && out.host.memory[TOUCHED..] == h.memory[TOUCHED..]
  {
    hide Classify, Run, StepAll, Tier0Run, RangesOf, LowerEpilogue, EncodeAll, LowerAll, Ops;
    CompilerCorrect(block, e, s.cpu, h);
    assert AllClassified(block.instructions[..e.translated]);
    Tier0RunAgrees(s, block.instructions[..e.translated]);
  }
}
