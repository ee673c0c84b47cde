/**
 What each tier-0 instruction does, as a function of the CPU state and memory
 before it: operands are resolved and read, results written, flags merged, in
 architectural order. A fault yields no new state at all.
 */
module Tier0 {
  import opened Words
  import opened Bits
  import opened GuestCpu
  import opened Iced
  import opened AluFlags
  import opened Rotates
  import opened GuestMemory

  datatype ExecError =
    | Unsupported(address: u32)
    | MemoryFault(error: MemoryError)

  datatype MState = MState(cpu: CpuState, memory: Space)

  type Outcome = Result<MState, ExecError>

  // --- registers -------------------------------------------------------------

  datatype Slot = Low8(index: nat) | High8(index: nat) | Wide16(index: nat) | Wide32(index: nat) | NoSlot

  function RegisterSlot(register: Register): (slot: Slot)
    ensures !slot.NoSlot? ==> slot.index < 8
  {
    match register
    case AL => Low8(0) case CL => Low8(1) case DL => Low8(2) case BL => Low8(3)
    case AH => High8(0) case CH => High8(1) case DH => High8(2) case BH => High8(3)
    case AX => Wide16(0) case CX => Wide16(1) case DX => Wide16(2) case BX => Wide16(3)
    case SP => Wide16(4) case BP => Wide16(5) case SI => Wide16(6) case DI => Wide16(7)
    case EAX => Wide32(0) case ECX => Wide32(1) case EDX => Wide32(2) case EBX => Wide32(3)
    case ESP => Wide32(4) case EBP => Wide32(5) case ESI => Wide32(6) case EDI => Wide32(7)
    case _ => NoSlot
  }

  function RegisterSize(register: Register): nat {
    match RegisterSlot(register)
    case Low8(_) => 1 case High8(_) => 1 case Wide16(_) => 2 case Wide32(_) => 4
    case NoSlot => if register in {ES, CS, SS, DS, FS, GS} then 2 else if register == NoRegister then 0 else 16
  }

  function ReadRegister(cpu: CpuState, register: Register): Result<u32, ExecError> {
    match RegisterSlot(register)
    case Low8(i) => Ok(cpu.gpr[i] % 0x100)
    case High8(i) => Ok(cpu.gpr[i] / 0x100 % 0x100)
    case Wide16(i) => Ok(cpu.gpr[i] % 0x1_0000)
    case Wide32(i) => Ok(cpu.gpr[i])
    case NoSlot => Err(Unsupported(cpu.eip))
  }

  /** A register with its low `modulus` part replaced. */
  function ReplaceLow(whole: u32, value: u32, modulus: nat): u32
    requires modulus == 0x100 || modulus == 0x1_0000
  {
    whole - whole % modulus + value % modulus
  }

  /** A register with its second byte replaced. */
  function ReplaceHigh8(whole: u32, value: u32): u32 {
    ReplaceLow(whole, whole % 0x100 + 0x100 * (value % 0x100), 0x1_0000)
  }

  function WriteRegister(cpu: CpuState, register: Register, value: u32): Result<CpuState, ExecError> {
    match RegisterSlot(register)
    case Low8(i) => Ok(cpu.(gpr := cpu.gpr[i := ReplaceLow(cpu.gpr[i], value, 0x100)]))
    case High8(i) => Ok(cpu.(gpr := cpu.gpr[i := ReplaceHigh8(cpu.gpr[i], value)]))
    case Wide16(i) => Ok(cpu.(gpr := cpu.gpr[i := ReplaceLow(cpu.gpr[i], value, 0x1_0000)]))
    case Wide32(i) => Ok(cpu.(gpr := cpu.gpr[i := value]))
    case NoSlot => Err(Unsupported(cpu.eip))
  }

  // --- operands --------------------------------------------------------------

  datatype Location = InRegister(register: Register) | InMemory(address: u32) | Constant(value: u32)

  function AddressRegister(cpu: CpuState, register: Register): Result<u32, ExecError> {
    if register == NoRegister then Ok(0)
    else if RegisterSlot(register).Wide32? then Ok(cpu.gpr[RegisterSlot(register).index])
    else Err(Unsupported(cpu.eip))
  }

  function SegmentBase(cpu: CpuState, segment: Register): Result<u32, ExecError> {
    match segment
    case ES => Ok(cpu.segments[0]) case CS => Ok(cpu.segments[1]) case SS => Ok(cpu.segments[2])
    case DS => Ok(cpu.segments[3]) case FS => Ok(cpu.segments[4]) case GS => Ok(cpu.segments[5])
    case _ => Err(Unsupported(cpu.eip))
  }

  /** The 32-bit effective address, wrapping; `lea` leaves the segment out. */
  function EffectiveAddress(cpu: CpuState, m: MemoryParts, withSegment: bool): Result<u32, ExecError> {
    var base :- AddressRegister(cpu, m.base);
    var index :- AddressRegister(cpu, m.index);
    var offset := WrapAdd(WrapAdd(m.displacement, base), index * m.scale);
    if withSegment then
      var segment :- SegmentBase(cpu, m.segment);
      Ok(WrapAdd(offset, segment))
    else Ok(offset)
  }

  function SignExtend8to16(b: u8): u32 { if b >= 0x80 then 0xFF00 + b else b }

  function Locate(cpu: CpuState, i: Instruction, index: nat): Result<Location, ExecError> {
    match i.Op(index)
    case OpRegister(register) => Ok(InRegister(register))
    case OpMemory =>
      (var address :- EffectiveAddress(cpu, i.memory, true);
       Ok(InMemory(address)))
    case Immediate8(value) => Ok(Constant(value))
    case Immediate8to16(value) => Ok(Constant(SignExtend8to16(value)))
    case Immediate8to32(value) => Ok(Constant(SignExtend8(value)))
    case Immediate16(value) => Ok(Constant(value))
    case Immediate32(value) => Ok(Constant(value))
    case _ => Err(Unsupported(cpu.eip))
  }

  function OperandWidth(cpu: CpuState, i: Instruction, index: nat): Result<Width, ExecError> {
    var bytes := match i.Op(index) case OpRegister(register) => RegisterSize(register) case OpMemory => i.memory.size case _ => 0;
    match WidthOfBytes(bytes) case Some(w) => Ok(w) case None => Err(Unsupported(cpu.eip))
  }

  lemma WidthBytes(w: Width)
    ensures Pow256(w.Bytes()) == w.Modulus()
  {
    Pow256Values();
  }

  function LoadWidth(memory: Space, address: u32, w: Width): (r: Result<u32, ExecError>)
    ensures r.Ok? ==> r.value < w.Modulus()
  {
    match memory.Load(address, w.Bytes(), ReadAccess)
    case Err(e) => Err(MemoryFault(e))
    case Ok(bytes) => WidthBytes(w); FromLeBound(bytes); Ok(FromLe(bytes))
  }

  function StoreWidth(memory: Space, address: u32, w: Width, value: u32): Result<Space, ExecError> {
    match memory.Store(address, Le(value, w.Bytes()))
    case Err(e) => Err(MemoryFault(e))
    case Ok(space) => Ok(space)
  }

  function ReadAt(s: MState, location: Location, w: Width): Result<u32, ExecError> {
    match location
    case InRegister(register) => ReadRegister(s.cpu, register)
    case InMemory(address) => LoadWidth(s.memory, address, w)
    case Constant(value) => Ok(Mask(value, w))
  }

  function WriteAt(s: MState, location: Location, w: Width, value: u32): Outcome {
    match location
    case InRegister(register) => (var cpu :- WriteRegister(s.cpu, register, Mask(value, w)); Ok(s.(cpu := cpu)))
    case InMemory(address) => (var memory :- StoreWidth(s.memory, address, w, value); Ok(s.(memory := memory)))
    case Constant(_) => Err(Unsupported(s.cpu.eip))
  }

  function WithFlags(s: MState, defined: u32, status: Status): MState {
    s.(cpu := s.cpu.(eflags := MergeFlags(s.cpu.eflags, defined, FlagWord(status))))
  }

  predicate CarryFlag(s: MState) { Bit(s.cpu.eflags, CARRY_BIT) }

  function Reg(s: MState, register: Gpr): u32 { s.cpu.Get(register) }

  function SetReg(s: MState, register: Gpr, value: u32): MState { s.(cpu := s.cpu.Set(register, value)) }

  // --- arithmetic, moves, exchanges --------------------------------------------

  /** The result, flags, defined mask and whether the destination is written. */
  datatype AluEffect = AluEffect(result: u32, status: Status, defined: u32, writes: bool)

  function Alu(m: Mnemonic, a: u32, b: u32, carry: bool, w: Width): Option<AluEffect> {
    match m
    case Add => var (r, st) := AddBits(a, b, false, w); Some(AluEffect(r, st, ARITHMETIC, true))
    case Adc => var (r, st) := AddBits(a, b, carry, w); Some(AluEffect(r, st, ARITHMETIC, true))
    case Sub => var (r, st) := SubBits(a, b, false, w); Some(AluEffect(r, st, ARITHMETIC, true))
    case Sbb => var (r, st) := SubBits(a, b, carry, w); Some(AluEffect(r, st, ARITHMETIC, true))
    case Cmp => var (r, st) := SubBits(a, b, false, w); Some(AluEffect(r, st, ARITHMETIC, false))
    case And => Some(AluEffect(BitAnd(a, b), ResultBits(BitAnd(a, b), w), LOGIC_DEFINED, true))
    case Or => Some(AluEffect(BitOr(a, b), ResultBits(BitOr(a, b), w), LOGIC_DEFINED, true))
    case Xor => Some(AluEffect(BitXor(a, b), ResultBits(BitXor(a, b), w), LOGIC_DEFINED, true))
    case Test => Some(AluEffect(BitAnd(a, b), ResultBits(BitAnd(a, b), w), LOGIC_DEFINED, false))
    case _ => None
  }

  function BinaryAlu(s: MState, i: Instruction): Outcome {
    var w :- OperandWidth(s.cpu, i, 0);
    var dst :- Locate(s.cpu, i, 0);
    var src :- Locate(s.cpu, i, 1);
    var a :- ReadAt(s, dst, w);
    var b :- ReadAt(s, src, w);
    match Alu(i.mnemonic, a, b, CarryFlag(s), w)
    case None => Err(Unsupported(s.cpu.eip))
    case Some(e) =>
      var written :- if e.writes then WriteAt(s, dst, w, e.result) else Ok(s);
      Ok(WithFlags(written, e.defined, e.status))
  }

  /** The one-operand instructions. The first two define every status flag but carry. */
  const INCDEC_DEFINED: u32 := 0x8D4

  function Unary(s: MState, i: Instruction): Outcome {
    var w :- OperandWidth(s.cpu, i, 0);
    var dst :- Locate(s.cpu, i, 0);
    var a :- ReadAt(s, dst, w);
    match i.mnemonic
    case Inc => (var (r, st) := AddBits(a, 1, false, w); var t :- WriteAt(s, dst, w, r); Ok(WithFlags(t, INCDEC_DEFINED, st)))
    case Dec => (var (r, st) := SubBits(a, 1, false, w); var t :- WriteAt(s, dst, w, r); Ok(WithFlags(t, INCDEC_DEFINED, st)))
    case Neg => (var (r, st) := SubBits(0, a, false, w); var t :- WriteAt(s, dst, w, r); Ok(WithFlags(t, ARITHMETIC, st)))
    case Not => WriteAt(s, dst, w, BitNot(a))
    case _ => Err(Unsupported(s.cpu.eip))
  }

  function MovSpec(s: MState, i: Instruction): Outcome {
    var w :- OperandWidth(s.cpu, i, 0);
    var src :- Locate(s.cpu, i, 1);
    var value :- ReadAt(s, src, w);
    var dst :- Locate(s.cpu, i, 0);
    WriteAt(s, dst, w, value)
  }

  /** Zero- and sign-extending moves. */
  function Widen(s: MState, i: Instruction, signed: bool): Outcome {
    var dw :- OperandWidth(s.cpu, i, 0);
    var sw :- OperandWidth(s.cpu, i, 1);
    var src :- Locate(s.cpu, i, 1);
    var raw :- ReadAt(s, src, sw);
    var dst :- Locate(s.cpu, i, 0);
    WriteAt(s, dst, dw, if signed then SignExtend(raw, sw) % TWO32 else Mask(raw, sw))
  }

  function LeaSpec(s: MState, i: Instruction): Outcome {
    if !i.Op(0).OpRegister? || !i.Op(1).OpMemory? then Err(Unsupported(s.cpu.eip)) else
    var w :- OperandWidth(s.cpu, i, 0);
    var offset :- EffectiveAddress(s.cpu, i.memory, false);
    WriteAt(s, InRegister(i.Op(0).register), w, offset)
  }

  function XchgSpec(s: MState, i: Instruction): Outcome {
    var w :- OperandWidth(s.cpu, i, 0);
    var first :- Locate(s.cpu, i, 0);
    var second :- Locate(s.cpu, i, 1);
    var a :- ReadAt(s, first, w);
    var b :- ReadAt(s, second, w);
    var t :- WriteAt(s, first, w, b);
    WriteAt(t, second, w, a)
  }

  /** XADD in architectural order: the source is written first, the destination last. */
  function XaddSpec(s: MState, i: Instruction): Outcome {
    var w :- OperandWidth(s.cpu, i, 0);
    var dst :- Locate(s.cpu, i, 0);
    var src :- Locate(s.cpu, i, 1);
    var a :- ReadAt(s, dst, w);
    var b :- ReadAt(s, src, w);
    var (sum, st) := AddBits(a, b, false, w);
    var t :- WriteAt(s, src, w, a);
    var u :- WriteAt(t, dst, w, sum);
    Ok(WithFlags(u, ARITHMETIC, st))
  }

  function Accumulator(w: Width): Register { match w case Byte => AL case Word => AX case Dword => EAX }

  /** CMPXCHG: the destination is written in both outcomes. */
  function CmpxchgSpec(s: MState, i: Instruction): Outcome {
    var w :- OperandWidth(s.cpu, i, 0);
    var dst :- Locate(s.cpu, i, 0);
    var src :- Locate(s.cpu, i, 1);
    var current :- ReadAt(s, dst, w);
    var accumulator :- ReadRegister(s.cpu, Accumulator(w));
    var st := SubBits(accumulator, current, false, w).1;
    if accumulator == current then
      var replacement :- ReadAt(s, src, w);
      var t :- WriteAt(s, dst, w, replacement);
      Ok(WithFlags(t, ARITHMETIC, st))
    else
      var t :- WriteAt(s, dst, w, current);
      var u :- WriteAt(t, InRegister(Accumulator(w)), w, current);
      Ok(WithFlags(u, ARITHMETIC, st))
  }

  function ZeroOnly(zero: bool): Status { Status(false, false, false, zero, false, false) }

  /** CMPXCHG8B: one eight-byte access each way, in both outcomes. */
  function Cmpxchg8bSpec(s: MState, i: Instruction): Outcome {
    if !i.Op(0).OpMemory? then Err(Unsupported(s.cpu.eip)) else
    var location :- EffectiveAddress(s.cpu, i.memory, true);
    match s.memory.Load(location, 8, ReadAccess)
    case Err(e) => Err(MemoryFault(e))
    case Ok(current) =>
      var low, high := FromLe32(current[..4]), FromLe32(current[4..]);
      var equal := low == Reg(s, Eax) && high == Reg(s, Edx);
      match s.memory.Store(location, if equal then Le32(Reg(s, Ebx)) + Le32(Reg(s, Ecx)) else current)
      case Err(e) => Err(MemoryFault(e))
      case Ok(memory) =>
        var t := s.(memory := memory);
        var loaded := if equal then t else SetReg(SetReg(t, Eax, low), Edx, high);
        Ok(WithFlags(loaded, ZERO, ZeroOnly(equal)))
  }

  // --- shifts -------------------------------------------------------------------

  function KindOf(m: Mnemonic): Option<ShiftKind> {
    match m
    case Shl => Some(KShl) case Sal => Some(KShl) case Shr => Some(KShr) case Sar => Some(KSar)
    case Rol => Some(KRol) case Ror => Some(KRor) case Rcl => Some(KRcl) case Rcr => Some(KRcr)
    case _ => None
  }

  function ShiftCount(cpu: CpuState, i: Instruction): (r: Result<nat, ExecError>)
    ensures r.Ok? ==> r.value < 32
  {
    match i.Op(1)
    case Immediate8(value) => Ok(value % 32)
    case OpRegister(register) => if register == CL then Ok(cpu.gpr[1] % 32) else Err(Unsupported(cpu.eip))
    case _ => Err(Unsupported(cpu.eip))
  }

  const SHIFT_DEFINED: u32 := 0x0C5
  const SHIFT_KEEP_CARRY: u32 := 0x0C4

  /** Which flags a shift by a nonzero count defines, overflow aside. */
  function ShiftDefined(kind: ShiftKind, count: nat, w: Width): u32 {
    if kind.KRol? || kind.KRor? || kind.KRcl? || kind.KRcr? then CARRY
    else if count >= w.Bits() && (kind.KShl? || kind.KShr?) then SHIFT_KEEP_CARRY
    else SHIFT_DEFINED
  }

  function ShiftStatus(r: Shifted, w: Width): Status {
    ResultBits(r.result, w).(carry := r.carry, overflow := r.overflow)
  }

  function ShiftMask(kind: ShiftKind, count: nat, w: Width): u32 {
    ShiftDefined(kind, count, w) + (if count == 1 then OVERFLOW else 0)
  }

  function ShiftOp(s: MState, i: Instruction, kind: ShiftKind): Outcome {
    var w :- OperandWidth(s.cpu, i, 0);
    var count :- ShiftCount(s.cpu, i);
    var dst :- Locate(s.cpu, i, 0);
    var raw :- ReadAt(s, dst, w);
    MaskBound(raw, w);
    var a := Mask(raw, w);
    if count == 0 then WriteAt(s, dst, w, a) else
    var r := ShiftSpec(kind, a, CarryFlag(s), count, w);
    var t :- WriteAt(s, dst, w, r.result);
    Ok(WithFlags(t, ShiftMask(kind, count, w), ShiftStatus(r, w)))
  }

  // --- bit tests --------------------------------------------------------------------

  datatype BitTarget = BitTarget(location: Location, bit: nat)

  /** Floor division, for bit indexes below the base. */
  function FloorIndex(index: int, bits: nat): int
    requires bits > 0
  {
    index / bits
  }

  /** Where the tested bit lives. A register index over memory addresses the bit string around the base. */
  function BitLocation(s: MState, i: Instruction, w: Width): (r: Result<BitTarget, ExecError>)
    ensures r.Ok? ==> r.value.bit < w.Bits()
  {
    match (i.Op(0), i.Op(1))
    case (OpRegister(register), _) =>
      (var source :- Locate(s.cpu, i, 1);
       var index :- ReadAt(s, source, w);
       Ok(BitTarget(InRegister(register), index % w.Bits())))
    case (OpMemory, Immediate8(value)) =>
      (var base :- EffectiveAddress(s.cpu, i.memory, true);
       Ok(BitTarget(InMemory(base), value % w.Bits())))
    case (OpMemory, OpRegister(register)) =>
      (var base :- EffectiveAddress(s.cpu, i.memory, true);
       var raw :- ReadRegister(s.cpu, register);
       var index := SignExtend(raw, w);
       Ok(BitTarget(InMemory(WrapAdd(base, FloorIndex(index, w.Bits()) * w.Bytes())), index % w.Bits())))
    case _ => Err(Unsupported(s.cpu.eip))
  }

  function BitUpdate(m: Mnemonic, value: u32, bit: nat): Option<u32>
    requires bit < 32
  {
    PowValues(); PowSmaller(bit, 31);
    match m
    case Bts => Some(BitOr(value, Pow2(bit)))
    case Btr => Some(BitAnd(value, BitNot(Pow2(bit))))
    case Btc => Some(BitXor(value, Pow2(bit)))
    case _ => None
  }

  function CarryOnly(carry: bool): Status { Status(carry, false, false, false, false, false) }

  function BitTestOp(s: MState, i: Instruction): Outcome {
    var w :- OperandWidth(s.cpu, i, 0);
    if w == Byte then Err(Unsupported(s.cpu.eip)) else
    var target :- BitLocation(s, i, w);
    var value :- ReadAt(s, target.location, w);
    var updated := BitUpdate(i.mnemonic, value, target.bit);
    var t :- if updated.Some? then WriteAt(s, target.location, w, updated.value) else Ok(s);
    Ok(WithFlags(t, CARRY, CarryOnly(Bit(value, target.bit))))
  }

  // --- the stack ----------------------------------------------------------------------

  function PushValue(s: MState, w: Width, value: u32): Outcome {
    var esp := WrapSub(Reg(s, Esp), w.Bytes());
    var memory :- StoreWidth(s.memory, esp, w, value);
    Ok(SetReg(s.(memory := memory), Esp, esp))
  }

  function PushOperand(s: MState, i: Instruction): Result<(Width, u32), ExecError> {
    match i.Op(0)
    case Immediate8to32(value) => Ok((Dword, SignExtend8(value)))
    case Immediate32(value) => Ok((Dword, value))
    case Immediate8to16(value) => Ok((Word, SignExtend8to16(value)))
    case Immediate16(value) => Ok((Word, value))
    case _ =>
      var w :- OperandWidth(s.cpu, i, 0);
      var source :- Locate(s.cpu, i, 0);
      var value :- ReadAt(s, source, w);
      Ok((w, value))
  }

  function PushSpec(s: MState, i: Instruction): Outcome {
    var (w, value) :- PushOperand(s, i);
    PushValue(s, w, value)
  }

  /** POP: the destination address is computed after the stack pointer moved. */
  function PopSpec(s: MState, i: Instruction): Outcome {
    var w :- OperandWidth(s.cpu, i, 0);
    var value :- LoadWidth(s.memory, Reg(s, Esp), w);
    var moved := SetReg(s, Esp, WrapAdd(Reg(s, Esp), w.Bytes()));
    var dst :- Locate(moved.cpu, i, 0);
    WriteAt(moved, dst, w, value)
  }

  function PushadFrame(s: MState): seq<u8> {
    Le32(Reg(s, Edi)) + Le32(Reg(s, Esi)) + Le32(Reg(s, Ebp)) + Le32(Reg(s, Esp))
    + Le32(Reg(s, Ebx)) + Le32(Reg(s, Edx)) + Le32(Reg(s, Ecx)) + Le32(Reg(s, Eax))
  }

  function PushadSpec(s: MState): Outcome {
    var base := WrapSub(Reg(s, Esp), 32);
    match s.memory.Store(base, PushadFrame(s))
    case Err(e) => Err(MemoryFault(e))
    case Ok(memory) => Ok(SetReg(s.(memory := memory), Esp, base))
  }

  function FrameWord(frame: seq<u8>, slot: nat): u32
    requires |frame| == 32 && slot < 8
  {
    FromLe32(frame[4 * slot..4 * slot + 4])
  }

  /** The eight words of a saved frame, from EDI up to EAX. */
  function FrameWords(frame: seq<u8>): (words: seq<u32>)
    requires |frame| == 32
    ensures |words| == 8
  {
    seq(8, slot requires 0 <= slot < 8 => FrameWord(frame, slot))
  }

  /** The registers a saved frame gives back: all but ESP, which moves past the frame. */
  function RestoredRegisters(words: seq<u32>, esp: u32): RegisterFile
    requires |words| == 8
  {
    [words[7], words[6], words[5], words[4], esp, words[2], words[1], words[0]]
  }

  function PopadSpec(s: MState): Outcome {
    match s.memory.Load(Reg(s, Esp), 32, ReadAccess)
    case Err(e) => Err(MemoryFault(e))
    case Ok(frame) =>
      Ok(s.(cpu := s.cpu.(gpr := RestoredRegisters(FrameWords(frame), WrapAdd(Reg(s, Esp), 32)))))
  }

  function LeaveSpec(s: MState, i: Instruction): Outcome {
    if !i.near32 then Err(Unsupported(s.cpu.eip)) else
    var frame := Reg(s, Ebp);
    var value :- LoadWidth(s.memory, frame, Dword);
    Ok(SetReg(SetReg(s, Esp, WrapAdd(frame, 4)), Ebp, value))
  }

  // --- control flow ---------------------------------------------------------------------

  function BranchTarget(s: MState, i: Instruction): Result<u32, ExecError> {
    match i.Op(0)
    case NearBranch32(target) => Ok(target)
    case OpRegister(register) =>
      (var value :- ReadRegister(s.cpu, register);
       if RegisterSize(register) == 4 then Ok(value) else Err(Unsupported(s.cpu.eip)))
    case OpMemory =>
      if !i.near32 then Err(Unsupported(s.cpu.eip)) else
      (var location :- EffectiveAddress(s.cpu, i.memory, true);
       LoadWidth(s.memory, location, Dword))
    case _ => Err(Unsupported(s.cpu.eip))
  }

  function Fallthrough(s: MState, i: Instruction): u32 { WrapAdd(s.cpu.eip, i.len) }

  function JumpTo(s: MState, target: u32): MState { s.(cpu := s.cpu.(eip := target)) }

  function JmpSpec(s: MState, i: Instruction): Outcome {
    var target :- BranchTarget(s, i);
    Ok(JumpTo(s, target))
  }

  function CallSpec(s: MState, i: Instruction): Outcome {
    var target :- BranchTarget(s, i);
    var t :- PushValue(s, Dword, Fallthrough(s, i));
    Ok(JumpTo(t, target))
  }

  function RetSpec(s: MState, i: Instruction): Outcome {
    if !i.near32 then Err(Unsupported(s.cpu.eip)) else
    var target :- LoadWidth(s.memory, Reg(s, Esp), Dword);
    var release := match i.Op(0) case Immediate16(n) => n case _ => 0;
    Ok(JumpTo(SetReg(s, Esp, WrapAdd(WrapAdd(Reg(s, Esp), 4), release)), target))
  }

  function JccSpec(s: MState, i: Instruction): Outcome {
    match i.Op(0)
    case NearBranch32(target) =>
      Ok(JumpTo(s, if ConditionMet(s.cpu.eflags, i.condition) then target else Fallthrough(s, i)))
    case _ => Err(Unsupported(s.cpu.eip))
  }

  /** LOOP counts ECX down first; the conditional forms also look at the zero flag. */
  predicate LoopTaken(m: Mnemonic, counter: u32, zero: bool) {
    counter != 0 && (m == Loope ==> zero) && (m == Loopne ==> !zero)
  }

  function LoopSpec(s: MState, i: Instruction): Outcome {
    if !i.near32 then Err(Unsupported(s.cpu.eip)) else
    match i.Op(0)
    case NearBranch32(target) =>
      var counter := WrapSub(Reg(s, Ecx), 1);
      var taken := LoopTaken(i.mnemonic, counter, Bit(s.cpu.eflags, ZERO_BIT));
      Ok(JumpTo(SetReg(s, Ecx, counter), if taken then target else Fallthrough(s, i)))
    case _ => Err(Unsupported(s.cpu.eip))
  }

  function JecxzSpec(s: MState, i: Instruction): Outcome {
    if !i.near32 then Err(Unsupported(s.cpu.eip)) else
    match i.Op(0)
    case NearBranch32(target) => Ok(JumpTo(s, if Reg(s, Ecx) == 0 then target else Fallthrough(s, i)))
    case _ => Err(Unsupported(s.cpu.eip))
  }

  function SetccSpec(s: MState, i: Instruction): Outcome {
    var dst :- Locate(s.cpu, i, 0);
    WriteAt(s, dst, Byte, BitOf(ConditionMet(s.cpu.eflags, i.condition)))
  }

  /** The source is read whether or not the condition holds. */
  function CmovSpec(s: MState, i: Instruction): Outcome {
    var w :- OperandWidth(s.cpu, i, 0);
    var src :- Locate(s.cpu, i, 1);
    var value :- ReadAt(s, src, w);
    if !ConditionMet(s.cpu.eflags, i.condition) then Ok(s) else
    var dst :- Locate(s.cpu, i, 0);
    WriteAt(s, dst, w, value)
  }

  // --- one instruction --------------------------------------------------------------------

  /** The straight-line instructions: everything that continues at the next one. */
  function StraightLine(s: MState, i: Instruction): Outcome {
    match i.mnemonic
    case Nop => Ok(s)
    case Mov => MovSpec(s, i)
    case Movzx => Widen(s, i, false)
    case Movsx => Widen(s, i, true)
    case Lea => LeaSpec(s, i)
    case Xchg => XchgSpec(s, i)
    case Xadd => XaddSpec(s, i)
    case Cmpxchg => CmpxchgSpec(s, i)
    case Cmpxchg8b => Cmpxchg8bSpec(s, i)
    case Add => BinaryAlu(s, i) case Adc => BinaryAlu(s, i) case Sub => BinaryAlu(s, i) case Sbb => BinaryAlu(s, i)
    case And => BinaryAlu(s, i) case Or => BinaryAlu(s, i) case Xor => BinaryAlu(s, i)
    case Cmp => BinaryAlu(s, i) case Test => BinaryAlu(s, i)
    case Inc => Unary(s, i) case Dec => Unary(s, i) case Neg => Unary(s, i) case Not => Unary(s, i)
    case Bt => BitTestOp(s, i) case Bts => BitTestOp(s, i) case Btr => BitTestOp(s, i) case Btc => BitTestOp(s, i)
    case Push => PushSpec(s, i)
    case Pop => PopSpec(s, i)
    case Pushad => PushadSpec(s)
    case Popad => PopadSpec(s)
    case Leave => LeaveSpec(s, i)
    case Setcc => SetccSpec(s, i)
    case Cmovcc => CmovSpec(s, i)
    case _ => match KindOf(i.mnemonic) case Some(kind) => ShiftOp(s, i, kind) case None => Err(Unsupported(s.cpu.eip))
  }

  predicate IsBranch(m: Mnemonic) { m in {Jmp, Call, Ret, Jcc, Loop, Loope, Loopne, Jecxz} }

  predicate IsString(m: Mnemonic) { m in {Movs, Stos, Lods, Scas, Cmps} }

  function Retire(s: MState): MState {
    s.(cpu := s.cpu.(tsc := (s.cpu.tsc + 1) % 0x1_0000_0000_0000_0000))
  }

  /** Execution continues after the instruction. */
  function Advance(o: Outcome, i: Instruction): Outcome {
    match o case Err(e) => Err(e) case Ok(s) => Ok(JumpTo(s, WrapAdd(s.cpu.eip, i.len)))
  }

  function Execute(s: MState, i: Instruction): Outcome {
    match i.mnemonic
    case Jmp => JmpSpec(s, i)
    case Call => CallSpec(s, i)
    case Ret => RetSpec(s, i)
    case Jcc => JccSpec(s, i)
    case Loop => LoopSpec(s, i) case Loope => LoopSpec(s, i) case Loopne => LoopSpec(s, i)
    case Jecxz => JecxzSpec(s, i)
    case _ => Advance(StraightLine(s, i), i)
  }

  /** One instruction, string instructions aside: effect, EIP and time-stamp counter. */
  function StepSpec(s: MState, i: Instruction): Outcome {
    match Execute(s, i) case Err(e) => Err(e) case Ok(t) => Ok(Retire(t))
  }
}
