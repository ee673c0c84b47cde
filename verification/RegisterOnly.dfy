/**
 The register-only subset (subset.rs) and its interpreter (interpret.rs), which
 is the meaning the direct emitter has to preserve.
 */
module RegisterOnly {
  import opened Words
  import opened Bits
  import opened GuestCpu
  import opened Iced

  datatype AluOp = AluAdd | AluSub | AluAnd | AluOr | AluXor

  datatype RegisterOperand = FromGpr(gpr: Gpr) | Immediate(value: u32)

  datatype RegisterOp =
    | RegNop
    | RegMov(dst: Gpr, src: RegisterOperand)
    | RegAlu(op: AluOp, dst: Gpr, src: RegisterOperand)

  // --- subset.rs ---------------------------------------------------------

  function GprFromRegister(register: Register): Option<Gpr> {
    match register
    case EAX => Some(Eax) case ECX => Some(Ecx) case EDX => Some(Edx) case EBX => Some(Ebx)
    case ESP => Some(Esp) case EBP => Some(Ebp) case ESI => Some(Esi) case EDI => Some(Edi)
    case _ => None
  }

  function Gpr32(instruction: Instruction, operand: nat): Option<Gpr> {
    match instruction.Op(operand)
    case OpRegister(register) => GprFromRegister(register)
    case _ => None
  }

  function Source(instruction: Instruction): Option<RegisterOperand> {
    if |instruction.operands| != 2 then None else
    match instruction.Op(1)
    case OpRegister(register) =>
      (match GprFromRegister(register) case Some(g) => Some(FromGpr(g)) case None => None)
    case Immediate32(value) => Some(Immediate(value))
    case Immediate8to32(value) => Some(Immediate(SignExtend8(value)))
    case _ => None
  }

  function AluOf(mnemonic: Mnemonic): Option<AluOp> {
    match mnemonic
    case Add => Some(AluAdd) case Sub => Some(AluSub)
    case And => Some(AluAnd) case Or => Some(AluOr) case Xor => Some(AluXor)
    case _ => None
  }

  function Classify(instruction: Instruction): Option<RegisterOp> {
    var dst := Gpr32(instruction, 0);
    var src := Source(instruction);
    if instruction.mnemonic == Nop && |instruction.operands| == 0 then Some(RegNop)
    else if instruction.mnemonic == Mov && dst.Some? && src.Some? then Some(RegMov(dst.value, src.value))
    else if AluOf(instruction.mnemonic).Some? && dst.Some? && src.Some? then
      Some(RegAlu(AluOf(instruction.mnemonic).value, dst.value, src.value))
    else None
  }

  // --- interpret.rs ------------------------------------------------------

  /** Zero, sign and parity of a result; carry, auxiliary carry and overflow clear. */
  function ResultStatus(result: u32): Status {
    Status(false, CountOnes(result, 8) % 2 == 0, false, result == 0, Bit(result, 31), false)
  }

  function AddStatus(a: u32, b: u32, result: u32): Status {
    ResultStatus(result).(
      carry := result < a,
      auxiliary := Bit(BitXor(BitXor(a, b), result), 4),
      overflow := Bit(BitAnd(BitXor(a, result), BitXor(b, result)), 31))
  }

  function SubStatus(a: u32, b: u32, result: u32): Status {
    ResultStatus(result).(
      carry := a < b,
      auxiliary := Bit(BitXor(BitXor(a, b), result), 4),
      overflow := Bit(BitAnd(BitXor(a, b), BitXor(a, result)), 31))
  }

  function AluResult(op: AluOp, a: u32, b: u32): u32 {
    match op
    case AluAdd => WrapAdd(a, b) case AluSub => WrapSub(a, b)
    case AluAnd => BitAnd(a, b) case AluOr => BitOr(a, b) case AluXor => BitXor(a, b)
  }

  function AluStatus(op: AluOp, a: u32, b: u32): Status {
    var result := AluResult(op, a, b);
    match op
    case AluAdd => AddStatus(a, b, result)
    case AluSub => SubStatus(a, b, result)
    case _ => ResultStatus(result)
  }

  function DefinedFlags(op: AluOp): u32 {
    if op == AluAdd || op == AluSub then ARITHMETIC else LOGIC_DEFINED
  }

  function ReadOperand(state: CpuState, operand: RegisterOperand): u32 {
    match operand
    case FromGpr(register) => state.Get(register)
    case Immediate(value) => value
  }

  /** The effect of one operation, the instruction pointer aside. */
  function Apply(state: CpuState, op: RegisterOp): CpuState {
    match op
    case RegNop => state
    case RegMov(dst, src) => state.Set(dst, ReadOperand(state, src))
    case RegAlu(alu, dst, src) =>
      var a, b := state.Get(dst), ReadOperand(state, src);
      state.Set(dst, AluResult(alu, a, b))
      .(eflags := MergeFlags(state.eflags, DefinedFlags(alu), FlagWord(AluStatus(alu, a, b))))
  }

  /** `step_register_only`: `None` is the unsupported-instruction error. */
  function StepRegisterOnly(state: CpuState, instruction: Instruction): Option<CpuState> {
    match Classify(instruction)
    case None => None
    case Some(op) => Some(Apply(state, op).(eip := WrapAdd(state.eip, instruction.len)))
  }
}
