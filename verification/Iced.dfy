/**
 What the interpreter and the emitter see of a decoded instruction: the typed
 operands, the length and the prefixes. Decoding itself is a parameter of the
 model wherever it matters.
 */
module Iced {
  import opened Words

  datatype Register =
    | AL | CL | DL | BL | AH | CH | DH | BH
    | AX | CX | DX | BX | SP | BP | SI | DI
    | EAX | ECX | EDX | EBX | ESP | EBP | ESI | EDI
    | ES | CS | SS | DS | FS | GS
    | NoRegister | OtherRegister

  datatype ConditionCode =
    | CcNone | CcO | CcNo | CcB | CcAe | CcE | CcNe | CcBe | CcA
    | CcS | CcNs | CcP | CcNp | CcL | CcGe | CcLe | CcG

  datatype Mnemonic =
    | Nop | Mov | Movzx | Movsx | Lea | Xchg | Xadd | Cmpxchg | Cmpxchg8b
    | Add | Adc | Sub | Sbb | And | Or | Xor | Cmp | Test
    | Inc | Dec | Neg | Not
    | Shl | Sal | Shr | Sar | Rol | Ror | Rcl | Rcr
    | Bt | Bts | Btr | Btc
    | Push | Pop | Pushad | Popad | Leave
    | Jmp | Call | Ret | Jcc | Loop | Loope | Loopne | Jecxz | Setcc | Cmovcc
    | Movs | Stos | Lods | Scas | Cmps
    | OtherMnemonic

  /** One operand with its payload; a memory operand's address parts live in the instruction. */
  datatype Operand =
    | OpRegister(register: Register)
    | OpMemory
    | Immediate8(imm8: u8)
    | Immediate8to16(imm8s16: u8)
    | Immediate8to32(imm8s32: u8)
    | Immediate16(imm16: u16)
    | Immediate32(imm32: u32)
    | NearBranch32(target: u32)
    | MemoryESEDI
    | MemorySegESI
    | OtherOperand

  datatype MemoryParts = MemoryParts(
    base: Register,
    index: Register,
    scale: u32,
    displacement: u32,
    segment: Register,
    size: nat)

  datatype Instruction = Instruction(
    ip: u64,
    len: u8,
    mnemonic: Mnemonic,
    operands: seq<Operand>,
    memory: MemoryParts,
    condition: ConditionCode,
    rep: bool,
    repne: bool,
    width: nat,
    near32: bool)
  {
    /** The operand in one position, or a kind nothing accepts when there is none. */
    function Op(index: nat): Operand {
      if index < |operands| then operands[index] else OtherOperand
    }
  }

  function SignExtend8(b: u8): u32 {
    if b >= 0x80 then TWO32 - 0x100 + b else b
  }
}
