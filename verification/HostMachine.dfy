/**
 A model of the host processor for the encodings the emitter uses: an x86-64
 decoder over raw bytes and an executor with RCX fixed to the `CpuState` bytes.

 Flags follow the Intel SDM (volume 2, ADD, SUB, AND, OR, XOR), stated through
 wide arithmetic. Where the SDM leaves the auxiliary carry undefined, the value
 comes from an arbitrary per-instruction oracle.
 */
module HostMachine {
  import opened Words
  import opened Bits
  import opened GuestCpu

  datatype HostReg = Rax | Rdx

  datatype HostAlu = HostAdd | HostOr | HostAnd | HostSub | HostXor

  /** Memory operands are always `[rcx + disp8]`. */
  datatype HostInstr =
    // `HAndEax` is the accumulator form of AND, opcode 0x25.
    | HNop
    | HLoad(reg: HostReg, disp: u8)
    | HStore(reg: HostReg, disp: u8)
    | HMovImm(reg: HostReg, imm: u32)
    | HStoreImm(disp: u8, imm: u32)
    | HAluReg(op: HostAlu, dst: HostReg, src: HostReg)
    | HAluImm(op: HostAlu, dst: HostReg, imm: u32)
    | HAndEax(imm: u32)
    | HPushfq
    | HPop(reg: HostReg)
    | HRet

  /** The upper half of RFLAGS is reserved and reads as zero, so `rflags` is its lower half. */
  datatype Host = Host(
    rax: u64,
    rdx: u64,
    rflags: u32,
    memory: seq<u8>,
    stack: seq<u64>,
    retired: nat,
    undefinedAux: nat -> bool)
  {
    function Reg(r: HostReg): u64 {
      if r == Rax then rax else rdx
    }

    /** The low half of a register. */
    function Reg32(r: HostReg): u32 {
      Reg(r) % TWO32
    }

    function SetReg(r: HostReg, value: u64): Host {
      if r == Rax then this.(rax := value) else this.(rdx := value)
    }

    /** A 32-bit register write zero-extends. */
    function SetReg32(r: HostReg, value: u32): Host {
      SetReg(r, value)
    }
  }

  /** How a run of host code ends. */
  datatype Outcome =
    | Returned(host: Host, returnAddress: u64)
    | Crashed

  // --- decoding ----------------------------------------------------------

  function RegOfField(field: u8): Option<HostReg> {
    if field == 0 then Some(Rax) else if field == 2 then Some(Rdx) else None
  }

  function AluOfOpcode(opcode: u8): Option<HostAlu> {
    if opcode == 0x01 then Some(HostAdd)
    else if opcode == 0x09 then Some(HostOr)
    else if opcode == 0x21 then Some(HostAnd)
    else if opcode == 0x29 then Some(HostSub)
    else if opcode == 0x31 then Some(HostXor)
    else None
  }

  /** The operation the reg field of a 0x81 group instruction selects. */
  function AluOfGroup(field: u8): Option<HostAlu> {
    if field == 0 then Some(HostAdd)
    else if field == 1 then Some(HostOr)
    else if field == 4 then Some(HostAnd)
    else if field == 5 then Some(HostSub)
    else if field == 6 then Some(HostXor)
    else None
  }

  function ModField(modrm: u8): u8 { modrm / 64 }
  function RegField(modrm: u8): u8 { modrm / 8 % 8 }
  function RmField(modrm: u8): u8 { modrm % 8 }

  /** ModRM with an 8-bit displacement from RCX. */
  predicate RcxDisp8(modrm: u8) { ModField(modrm) == 1 && RmField(modrm) == 1 }

  /** ModRM naming two registers. */
  predicate RegisterForm(modrm: u8) { ModField(modrm) == 3 }

  datatype Decoded = Decoded(instr: HostInstr, length: nat) | Undecodable

  /** The first instruction of `bytes`; it depends on the bytes it consumes alone. */
  function Decode(bytes: seq<u8>): (d: Decoded)
    ensures d.Decoded? ==> 0 < d.length <= |bytes|
  {
    if |bytes| == 0 then Undecodable else
    var op := bytes[0];
    if op == 0x90 then Decoded(HNop, 1)
    else if op == 0x9C then Decoded(HPushfq, 1)
    else if op == 0xC3 then Decoded(HRet, 1)
    else if 0x58 <= op <= 0x5F then
      (match RegOfField(op % 8) case Some(r) => Decoded(HPop(r), 1) case None => Undecodable)
    else if 0xB8 <= op <= 0xBF && |bytes| >= 5 then
      (match RegOfField(op % 8)
       case Some(r) => Decoded(HMovImm(r, FromLe32(bytes[1..5])), 5)
       case None => Undecodable)
    else if op == 0x25 && |bytes| >= 5 then Decoded(HAndEax(FromLe32(bytes[1..5])), 5)
    else if |bytes| < 2 then Undecodable
    else DecodeModRm(op, bytes[1], bytes)
  }

  function DecodeModRm(op: u8, modrm: u8, bytes: seq<u8>): (d: Decoded)
    requires |bytes| >= 2
    ensures d.Decoded? ==> 0 < d.length <= |bytes|
  {
    var reg, rm := RegOfField(RegField(modrm)), RegOfField(RmField(modrm));
    if op == 0x8B && RcxDisp8(modrm) && reg.Some? && |bytes| >= 3 then Decoded(HLoad(reg.value, bytes[2]), 3)
    else if op == 0x89 && RcxDisp8(modrm) && reg.Some? && |bytes| >= 3 then Decoded(HStore(reg.value, bytes[2]), 3)
    else if op == 0xC7 && RcxDisp8(modrm) && RegField(modrm) == 0 && |bytes| >= 7 then
      Decoded(HStoreImm(bytes[2], FromLe32(bytes[3..7])), 7)
    else if op == 0x81 && RegisterForm(modrm) && rm.Some? && AluOfGroup(RegField(modrm)).Some? && |bytes| >= 6 then
      Decoded(HAluImm(AluOfGroup(RegField(modrm)).value, rm.value, FromLe32(bytes[2..6])), 6)
    else if AluOfOpcode(op).Some? && RegisterForm(modrm) && rm.Some? && reg.Some? then
      Decoded(HAluReg(AluOfOpcode(op).value, rm.value, reg.value), 2)
    else Undecodable
  }

  // --- execution ---------------------------------------------------------

  function AluValue(op: HostAlu, a: u32, b: u32): u32 {
    match op
    case HostAdd => WrapAdd(a, b) case HostSub => WrapSub(a, b)
    case HostAnd => BitAnd(a, b) case HostOr => BitOr(a, b) case HostXor => BitXor(a, b)
  }

  /** Whether an odd number of the low `n` bits are set. */
  predicate OddOnes(x: nat, n: nat)
    decreases n
  {
    n > 0 && (x % 2 == 1) != OddOnes(x / 2, n - 1)
  }

  predicate Fits32(x: int) { -0x8000_0000 <= x < 0x8000_0000 }

  /**
   The status flags of an ALU instruction: carry and overflow say that the
   unsigned and the signed result do not fit, the auxiliary carry that the low
   nibbles carry or borrow. The auxiliary carry is undefined after logic.
   */
  function HostStatus(op: HostAlu, a: u32, b: u32, undefined: bool): Status {
    var result := AluValue(op, a, b);
    var base := Status(false, !OddOnes(result, 8), undefined, result == 0, Signed(result) < 0, false);
    match op
    case HostAdd => base.(carry := a + b >= TWO32, auxiliary := a % 16 + b % 16 >= 16, overflow := !Fits32(Signed(a) + Signed(b)))
    case HostSub => base.(carry := a < b, auxiliary := a % 16 < b % 16, overflow := !Fits32(Signed(a) - Signed(b)))
    case _ => base
  }

  /** RFLAGS after an ALU instruction: the six status flags change, the rest stay. */
  function AluRflags(rflags: u32, status: Status): u32 {
    MergeFlags(rflags, ARITHMETIC, FlagWord(status))
  }

  /** The image PUSHFQ stores: RF, VM and everything above bit 23 read as zero. */
  function PushedFlags(rflags: u32): u64 {
    BitAnd(rflags, 0x00FC_FFFF)
  }

  /** The displacement is signed; only in-bounds dwords of the state are accessible. */
  predicate Addressable(h: Host, disp: u8) {
    disp < 0x80 && disp + 4 <= |h.memory|
  }

  function Load32(h: Host, disp: u8): u32
    requires Addressable(h, disp)
  {
    FromLe32(h.memory[disp..disp + 4])
  }

  function Store32(h: Host, disp: u8, value: u32): Host
    requires Addressable(h, disp)
  {
    h.(memory := h.memory[..disp] + Le32(value) + h.memory[disp + 4..])
  }

  function ExecAlu(h: Host, op: HostAlu, dst: HostReg, b: u32): Host {
    var a := h.Reg32(dst);
    h.SetReg32(dst, AluValue(op, a, b))
    .(rflags := AluRflags(h.rflags, HostStatus(op, a, b, h.undefinedAux(h.retired))))
  }

  /** One instruction other than RET; `None` is a host fault. */
  function Exec(instr: HostInstr, h: Host): Option<Host>
    requires !instr.HRet?
  {
    var next := h.(retired := h.retired + 1);
    match instr
    case HNop => Some(next)
    case HLoad(reg, disp) =>
      if Addressable(h, disp) then Some(next.SetReg32(reg, Load32(h, disp))) else None
    case HStore(reg, disp) =>
      if Addressable(h, disp) then Some(Store32(next, disp, h.Reg32(reg))) else None
    case HMovImm(reg, imm) => Some(next.SetReg32(reg, imm))
    case HStoreImm(disp, imm) =>
      if Addressable(h, disp) then Some(Store32(next, disp, imm)) else None
    case HAluReg(op, dst, src) => Some(ExecAlu(h, op, dst, h.Reg32(src)).(retired := h.retired + 1))
    case HAluImm(op, dst, imm) => Some(ExecAlu(h, op, dst, imm).(retired := h.retired + 1))
    case HAndEax(imm) => Some(ExecAlu(h, HostAnd, Rax, imm).(retired := h.retired + 1))
    case HPushfq => Some(next.(stack := [PushedFlags(h.rflags)] + h.stack))
    case HPop(reg) =>
      if |h.stack| > 0 then Some(next.SetReg(reg, h.stack[0]).(stack := h.stack[1..])) else None
  }

  /** Runs raw code from its first byte until it returns or crashes. */
  function Run(code: seq<u8>, h: Host): Outcome
    decreases |code|
  {
    match Decode(code)
    case Undecodable => Crashed
    case Decoded(HRet, _) =>
      if |h.stack| > 0 then Returned(h.(stack := h.stack[1..]), h.stack[0]) else Crashed
    case Decoded(instr, length) =>
      match Exec(instr, h)
      case None => Crashed
      case Some(next) => Run(code[length..], next)
  }
}
