/** The guest register file and EFLAGS layout (state.rs, flags.rs). */
module GuestCpu {
  import opened Words
  import opened Bits

  datatype Gpr = Eax | Ecx | Edx | Ebx | Esp | Ebp | Esi | Edi

  /** The x86 encoding index, which is also the slot in the register file. */
  function Index(register: Gpr): (i: nat)
    ensures i < 8
  {
    match register
    case Eax => 0 case Ecx => 1 case Edx => 2 case Ebx => 3
    case Esp => 4 case Ebp => 5 case Esi => 6 case Edi => 7
  }

  type RegisterFile = g: seq<u32> | |g| == 8 witness [0, 0, 0, 0, 0, 0, 0, 0]

  /** The segment bases in encoding order: ES, CS, SS, DS, FS, GS. */
  type SegmentBases = g: seq<u32> | |g| == 6 witness [0, 0, 0, 0, 0, 0]

  datatype CpuState = CpuState(
    gpr: RegisterFile,
    eip: u32,
    eflags: u32,
    segments: SegmentBases,
    tsc: u64)
  {
    function Get(register: Gpr): u32 {
      gpr[Index(register)]
    }

    function Set(register: Gpr, value: u32): CpuState {
      this.(gpr := gpr[Index(register) := value])
    }
  }

  const CARRY: u32 := 0x001
  const PARITY: u32 := 0x004
  const AUXILIARY: u32 := 0x010
  const ZERO: u32 := 0x040
  const SIGN: u32 := 0x080
  const OVERFLOW: u32 := 0x800
  const ARITHMETIC: u32 := 0x8D5
  /** Logical operations leave the auxiliary carry undefined. */
  const LOGIC_DEFINED: u32 := 0x8C5

  /** The status flags of one operation. */
  datatype Status = Status(carry: bool, parity: bool, auxiliary: bool, zero: bool, sign: bool, overflow: bool)

  /** The EFLAGS word holding exactly these status flags. */
  function FlagWord(s: Status): u32 {
    BitOf(s.carry) * CARRY + BitOf(s.parity) * PARITY + BitOf(s.auxiliary) * AUXILIARY
    + BitOf(s.zero) * ZERO + BitOf(s.sign) * SIGN + BitOf(s.overflow) * OVERFLOW
  }

  const CARRY_BIT := 0
  const PARITY_BIT := 2
  const AUXILIARY_BIT := 4
  const ZERO_BIT := 6
  const SIGN_BIT := 7
  const DIRECTION_BIT := 10
  const OVERFLOW_BIT := 11

  /** Replaces the `defined` bits of `eflags` by those of `values`, keeping the rest. */
  function MergeFlags(eflags: u32, defined: u32, values: u32): u32 {
    BitOr(BitAnd(eflags, BitNot(defined)), BitAnd(values, defined))
  }

  lemma MergeBit(eflags: u32, defined: u32, values: u32, k: nat)
    requires k < 32
    ensures Bit(MergeFlags(eflags, defined, values), k) == if Bit(defined, k) then Bit(values, k) else Bit(eflags, k)
  {
    BitOrBit(BitAnd(eflags, BitNot(defined)), BitAnd(values, defined), k);
    BitAndBit(eflags, BitNot(defined), k);
    BitAndBit(values, defined, k);
    BitNotBit(defined, k);
  }

  /** The bits of a flag word are its flags. */
  lemma FlagBit(s: Status, k: nat)
    ensures Bit(FlagWord(s), k) ==
            ((k == CARRY_BIT && s.carry) || (k == PARITY_BIT && s.parity) || (k == AUXILIARY_BIT && s.auxiliary)
             || (k == ZERO_BIT && s.zero) || (k == SIGN_BIT && s.sign) || (k == OVERFLOW_BIT && s.overflow))
  {
    hide Bit;
    var w11 := BitOf(s.overflow) + 2 * 0;
    Peel(s.overflow, 0, k - 11);
    Peel(false, w11, k - 10); Peel(false, 2 * w11, k - 9); Peel(false, 4 * w11, k - 8);
    var w7 := BitOf(s.sign) + 2 * (8 * w11);
    Peel(s.sign, 8 * w11, k - 7);
    var w6 := BitOf(s.zero) + 2 * w7;
    Peel(s.zero, w7, k - 6); Peel(false, w6, k - 5);
    var w4 := BitOf(s.auxiliary) + 2 * (2 * w6);
    Peel(s.auxiliary, 2 * w6, k - 4); Peel(false, w4, k - 3);
    var w2 := BitOf(s.parity) + 2 * (2 * w4);
    Peel(s.parity, 2 * w4, k - 2); Peel(false, w2, k - 1);
    Peel(s.carry, 2 * w2, k);
    assert FlagWord(s) == BitOf(s.carry) + 2 * (2 * w2);
    if k > 11 { ZeroBit(k - 12); }
  }

  /** The mask of the flags arithmetic defines, and of those logic defines. */
  lemma MaskBit(k: nat)
    ensures Bit(ARITHMETIC, k) == (k == CARRY_BIT || k == PARITY_BIT || k == AUXILIARY_BIT || k == ZERO_BIT || k == SIGN_BIT || k == OVERFLOW_BIT)
    ensures Bit(LOGIC_DEFINED, k) == (k == CARRY_BIT || k == PARITY_BIT || k == ZERO_BIT || k == SIGN_BIT || k == OVERFLOW_BIT)
  {
    hide Bit;
    FlagBit(Status(true, true, true, true, true, true), k);
    FlagBit(Status(true, true, false, true, true, true), k);
  }
}
