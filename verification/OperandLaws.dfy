/**
 What operands guarantee the instructions built on them (exec.rs, operand access
 and exchanges): a written location reads back, partial registers leave the rest
 of their register alone, and moves and exchanges end where they should.
 */
module OperandLaws {
  import opened Words
  import opened Bits
  import opened GuestCpu
  import opened Iced
  import opened AluFlags
  import opened GuestMemory
  import opened Tier0

  // --- registers -----------------------------------------------------------------------

  /** Two register names share bits: the same register, unless they are its two low bytes. */
  predicate Overlaps(a: Register, b: Register) {
    var s, t := RegisterSlot(a), RegisterSlot(b);
    !s.NoSlot? && !t.NoSlot? && s.index == t.index && !(s.Low8? && t.High8?) && !(s.High8? && t.Low8?)
  }

  lemma ReplacedLow(whole: u32, value: u32, modulus: nat)
    requires modulus == 0x100 || modulus == 0x1_0000
    ensures ReplaceLow(whole, value, modulus) % modulus == value % modulus
    ensures ReplaceLow(whole, value, modulus) / modulus == whole / modulus
  {}

  lemma SecondByte(whole: u32)
    ensures whole / 0x100 % 0x100 == whole % 0x1_0000 / 0x100
  {
    var q, r := whole / 0x1_0000, whole % 0x1_0000;
    assert whole == 0x1_0000 * q + r;
    assert whole / 0x100 == 0x100 * q + r / 0x100;
  }

  lemma ReplacedLowByte(whole: u32, value: u32)
    ensures ReplaceLow(whole, value, 0x100) / 0x100 % 0x100 == whole / 0x100 % 0x100
  {
    ReplacedLow(whole, value, 0x100);
  }

  lemma ReplacedHigh(whole: u32, value: u32)
    ensures ReplaceHigh8(whole, value) / 0x100 % 0x100 == value % 0x100
    ensures ReplaceHigh8(whole, value) % 0x100 == whole % 0x100
    ensures ReplaceHigh8(whole, value) / 0x1_0000 == whole / 0x1_0000
  {
    hide ReplaceLow;
    var low := whole % 0x100 + 0x100 * (value % 0x100);
    ReplacedLow(whole, low, 0x1_0000);
    var r := ReplaceHigh8(whole, value);
    SecondByte(r);
    assert r % 0x1_0000 == low;
    assert r % 0x100 == r % 0x1_0000 % 0x100;
  }

  /** A register reads back what was written, at its own width. */
  lemma RegisterReadBack(cpu: CpuState, register: Register, value: u32)
    requires WriteRegister(cpu, register, value).Ok?
    ensures ReadRegister(WriteRegister(cpu, register, value).value, register) == Ok(
              if RegisterSize(register) == 1 then value % 0x100 else if RegisterSize(register) == 2 then value % 0x1_0000 else value)
  {
    hide ReplaceLow, ReplaceHigh8, RegisterSlot;
    var slot := RegisterSlot(register);
    if slot.Low8? { ReplacedLow(cpu.gpr[slot.index], value, 0x100); }
    if slot.High8? { ReplacedHigh(cpu.gpr[slot.index], value); }
    if slot.Wide16? { ReplacedLow(cpu.gpr[slot.index], value, 0x1_0000); }
  }

  /** Writing a register leaves every register it does not overlap as it was. */
  lemma RegisterApart(cpu: CpuState, register: Register, value: u32, other: Register)
    requires WriteRegister(cpu, register, value).Ok? && !Overlaps(register, other)
    ensures ReadRegister(WriteRegister(cpu, register, value).value, other) == ReadRegister(cpu, other)
  {
    hide ReplaceLow, ReplaceHigh8, RegisterSlot;
    var slot := RegisterSlot(register);
    if slot.Low8? { ReplacedLowByte(cpu.gpr[slot.index], value); }
    if slot.High8? { ReplacedHigh(cpu.gpr[slot.index], value); }
  }

  // --- locations --------------------------------------------------------------------------

  /** A location of an operand's width that can be read. */
  predicate Sized(s: MState, location: Location, w: Width) {
    match location
    case InRegister(register) => RegisterSize(register) == w.Bytes()
    case InMemory(address) => LoadWidth(s.memory, address, w).Ok?
    case Constant(_) => true
  }

  lemma WidthMask(value: nat, w: Width)
    ensures Mask(value, w) == value % w.Modulus() && Mask(Mask(value, w), w) == Mask(value, w)
  {}

  lemma {:induction false} LeTruncates(value: nat, n: nat)
    ensures Le(value, n) == Le(value % Pow256(n), n)
    decreases n
  {
    if n > 0 {
      var p := Pow256(n - 1);
      LeTruncates(value / 256, n - 1);
      assert value % (256 * p) / 256 == value / 256 % p && value % (256 * p) % 256 == value % 256 by { ModParts(value, p); }
    }
  }

  lemma ModParts(v: nat, p: nat)
    requires p > 0
    ensures v % (256 * p) / 256 == v / 256 % p && v % (256 * p) % 256 == v % 256
  {
    var q, r, b := v / 256 / p, v / 256 % p, v % 256;
    DivMod(v / 256, p);
    assert v == 256 * (v / 256) + b;
    assert v == (256 * p) * q + (256 * r + b) by { assert 256 * (p * q) == (256 * p) * q; }
    DivUnique(v, 256 * p, q, 256 * r + b);
  }

  /** A location reads back what was written to it, cut to its width. */
  lemma ReadBack(s: MState, location: Location, w: Width, value: u32)
    requires WriteAt(s, location, w, value).Ok? && Sized(s, location, w)
    ensures ReadAt(WriteAt(s, location, w, value).value, location, w) == Ok(Mask(value, w))
  {
    hide WriteRegister, ReadRegister, LoadWidth, StoreWidth, Mask;
    WidthMask(value, w);
    match location
    case InRegister(register) => RegisterReadBack(s.cpu, register, Mask(value, w));
    case InMemory(address) => MemoryReadBack(s.memory, address, w, value);
    case Constant(_) =>
  }

  lemma MemoryReadBack(memory: Space, address: u32, w: Width, value: u32)
    requires StoreWidth(memory, address, w, value).Ok? && LoadWidth(memory, address, w).Ok?
    ensures LoadWidth(StoreWidth(memory, address, w, value).value, address, w) == Ok(Mask(value, w))
  {
    var n := w.Bytes();
    WidthBytes(w);
    LoadAfterStore(memory, address, Le(value, n));
    hide Le, FromLe, Pow256;
    LeTruncates(value, n);
    FromLeOfLe(value % Pow256(n), n);
  }

  /** Two locations share no bits. */
  predicate Separate(a: Location, b: Location) {
    match (a, b)
    case (InRegister(p), InRegister(q)) => !Overlaps(p, q)
    case (InMemory(_), InMemory(_)) => false
    case _ => true
  }

  /** Writing one location leaves a separate one as it was. */
  lemma WriteApart(s: MState, location: Location, w: Width, value: u32, other: Location)
    requires WriteAt(s, location, w, value).Ok? && Separate(location, other)
    ensures ReadAt(WriteAt(s, location, w, value).value, other, w) == ReadAt(s, other, w)
  {
    hide WriteRegister, ReadRegister, LoadWidth, StoreWidth, Mask, Overlaps;
    if location.InRegister? && other.InRegister? { RegisterApart(s.cpu, location.register, Mask(value, w), other.register); }
  }

  lemma FlagsApart(s: MState, defined: u32, status: Status, location: Location, w: Width)
    ensures ReadAt(WithFlags(s, defined, status), location, w) == ReadAt(s, location, w)
  {
    hide MergeFlags, FlagWord, LoadWidth, Mask;
  }

  // --- moves and exchanges -------------------------------------------------------------------

  /** The operands of a two-operand instruction, located and read. */
  predicate Operands(s: MState, i: Instruction, w: Width, dst: Location, src: Location, a: u32, b: u32) {
    && OperandWidth(s.cpu, i, 0) == Ok(w) && Locate(s.cpu, i, 0) == Ok(dst) && Locate(s.cpu, i, 1) == Ok(src)
    && ReadAt(s, dst, w) == Ok(a) && ReadAt(s, src, w) == Ok(b)
    && Sized(s, dst, w) && Sized(s, src, w) && a < w.Modulus() && b < w.Modulus()
  }

  /** MOV leaves the source's value in the destination. */
  lemma MovMoves(s: MState, i: Instruction, w: Width, dst: Location, src: Location, a: u32, b: u32, t: MState)
    requires Operands(s, i, w, dst, src, a, b) && MovSpec(s, i) == Ok(t)
    ensures ReadAt(t, dst, w) == Ok(b)
  {
    hide ReadAt, WriteAt, Locate, OperandWidth, Sized, Mask;
    ReadBack(s, dst, w, b);
    MaskSmall(b, w);
  }

  /** XCHG leaves each operand with the other's value. */
  lemma XchgSwaps(s: MState, i: Instruction, w: Width, dst: Location, src: Location, a: u32, b: u32, t: MState)
    requires Operands(s, i, w, dst, src, a, b) && Separate(dst, src) && XchgSpec(s, i) == Ok(t)
    ensures ReadAt(t, dst, w) == Ok(b) && ReadAt(t, src, w) == Ok(a)
  {
    hide ReadAt, WriteAt, Locate, OperandWidth, Sized, Mask, Separate;
    var middle := WriteAt(s, dst, w, b).value;
    SeparateSymmetric(dst, src);
    ReadBack(s, dst, w, b);
    WriteApart(middle, src, w, a, dst);
    SizedLater(s, dst, w, b, src);
    ReadBack(middle, src, w, a);
    MaskSmall(a, w);
    MaskSmall(b, w);
  }

  lemma SeparateSymmetric(a: Location, b: Location)
    ensures Separate(a, b) <==> Separate(b, a)
  {}

  lemma SizedLater(s: MState, location: Location, w: Width, value: u32, other: Location)
    requires WriteAt(s, location, w, value).Ok? && Separate(location, other) && Sized(s, other, w)
    ensures Sized(WriteAt(s, location, w, value).value, other, w)
  {
    hide WriteRegister, LoadWidth, StoreWidth, Mask, Overlaps;
  }

  lemma SumIs(a: u32, b: u32, w: Width)
    requires a < w.Modulus() && b < w.Modulus()
    ensures AddBits(a, b, false, w).0 == (a + b) % w.Modulus() && Mask(AddBits(a, b, false, w).0, w) == AddBits(a, b, false, w).0
  {
    hide Bit, BitXor, BitAnd, SignOf, CountOnes, Mask, ResultBits;
    MaskSmall(a, w);
    MaskSmall(b, w);
    WidthMask(a + b, w);
  }

  /**
   XADD leaves the sum in the destination, even when the source is the same
   register, and the old destination in a source apart from it.
   */
  lemma XaddAdds(s: MState, i: Instruction, w: Width, dst: Location, src: Location, a: u32, b: u32, t: MState)
    requires Operands(s, i, w, dst, src, a, b) && (Separate(dst, src) || (dst == src && dst.InRegister?))
    requires XaddSpec(s, i) == Ok(t)
    ensures ReadAt(t, dst, w) == Ok((a + b) % w.Modulus())
    ensures Separate(dst, src) ==> ReadAt(t, src, w) == Ok(a)
  {
    var sum, status := AddBits(a, b, false, w).0, AddBits(a, b, false, w).1;
    SumIs(a, b, w);
    MaskSmall(a, w);
    var first, second := XaddWrites(s, i, w, dst, src, a, b, t);
    hide ReadAt, WriteAt, Locate, OperandWidth, Sized, Separate, AddBits, Mask, XaddSpec, WithFlags;
    SeparateSymmetric(dst, src);
    if Separate(dst, src) { SizedLater(s, src, w, a, dst); } else { RegisterSized(s, first, dst, w); }
    ReadBack(first, dst, w, sum);
    FlagsApart(second, ARITHMETIC, status, dst, w);
    FlagsApart(second, ARITHMETIC, status, src, w);
    if Separate(dst, src) {
      WriteApart(first, dst, w, sum, src);
      ReadBack(s, src, w, a);
    }
  }

  /** The two writes of XADD. */
  lemma XaddWrites(s: MState, i: Instruction, w: Width, dst: Location, src: Location, a: u32, b: u32, t: MState)
    returns (first: MState, second: MState)
    requires Operands(s, i, w, dst, src, a, b) && XaddSpec(s, i) == Ok(t)
    ensures WriteAt(s, src, w, a) == Ok(first) && WriteAt(first, dst, w, AddBits(a, b, false, w).0) == Ok(second)
    ensures t == WithFlags(second, ARITHMETIC, AddBits(a, b, false, w).1)
  {
    hide ReadAt, WriteAt, Locate, OperandWidth, Sized, Mask, ResultBits, WithFlags;
    first := WriteAt(s, src, w, a).value;
    second := WriteAt(first, dst, w, AddBits(a, b, false, w).0).value;
  }

  lemma RegisterSized(s: MState, t: MState, location: Location, w: Width)
    requires location.InRegister? && Sized(s, location, w)
    ensures Sized(t, location, w)
  {}

  /**
   CMPXCHG8B: the zero flag says whether memory held EDX:EAX; if it did, memory
   holds ECX:EBX, and if not, memory is unchanged and EDX:EAX holds its value.
   */
  lemma Cmpxchg8bMeans(s: MState, i: Instruction, location: u32, current: seq<u8>, t: MState)
    requires EffectiveAddress(s.cpu, i.memory, true) == Ok(location) && s.memory.Load(location, 8, ReadAccess) == Ok(current)
    requires Cmpxchg8bSpec(s, i) == Ok(t)
    ensures Bit(t.cpu.eflags, ZERO_BIT) <==> current == Le32(Reg(s, Eax)) + Le32(Reg(s, Edx))
    ensures Bit(t.cpu.eflags, ZERO_BIT) ==>
              t.memory.Load(location, 8, ReadAccess) == Ok(Le32(Reg(s, Ebx)) + Le32(Reg(s, Ecx))) && t.cpu.gpr == s.cpu.gpr
    ensures !Bit(t.cpu.eflags, ZERO_BIT) ==>
              t.memory.Load(location, 8, ReadAccess) == Ok(current) && Le32(Reg(t, Eax)) + Le32(Reg(t, Edx)) == current
  {
    hide Bit, EffectiveAddress, Le32, FromLe32, MergeFlags, FlagWord, Cmpxchg8bSpec;
    var low, high := current[..4], current[4..];
    WordOfBytes(low, Reg(s, Eax));
    WordOfBytes(high, Reg(s, Edx));
    assert current == low + high;
    var equal := FromLe32(low) == Reg(s, Eax) && FromLe32(high) == Reg(s, Edx);
    var data := if equal then Le32(Reg(s, Ebx)) + Le32(Reg(s, Ecx)) else current;
    Cmpxchg8bParts(s, i, location, current, t);
    ZeroFlag(s.cpu.eflags, equal);
    SplitsAt(Le32(Reg(s, Eax)), Le32(Reg(s, Edx)), current);
    LoadAfterStore(s.memory, location, data);
    if !equal {
      WordOfBytes(low, FromLe32(low));
      WordOfBytes(high, FromLe32(high));
    }
  }

  lemma SplitsAt(a: seq<u8>, b: seq<u8>, c: seq<u8>)
    requires |a| == 4 && |b| == 4 && |c| == 8
    ensures c == a + b <==> c[..4] == a && c[4..] == b
  {
    if c[..4] == a && c[4..] == b { assert c == c[..4] + c[4..]; }
  }

  /** What CMPXCHG8B stores and what it leaves in the registers and flags. */
  lemma Cmpxchg8bParts(s: MState, i: Instruction, location: u32, current: seq<u8>, t: MState)
    requires EffectiveAddress(s.cpu, i.memory, true) == Ok(location) && s.memory.Load(location, 8, ReadAccess) == Ok(current)
    requires Cmpxchg8bSpec(s, i) == Ok(t)
    ensures var equal := FromLe32(current[..4]) == Reg(s, Eax) && FromLe32(current[4..]) == Reg(s, Edx);
            var data := if equal then Le32(Reg(s, Ebx)) + Le32(Reg(s, Ecx)) else current;
            && s.memory.Store(location, data) == Ok(t.memory)
            && t.cpu.eflags == MergeFlags(s.cpu.eflags, ZERO, FlagWord(ZeroOnly(equal)))
            && (equal ==> t.cpu.gpr == s.cpu.gpr)
            && (!equal ==> Reg(t, Eax) == FromLe32(current[..4]) && Reg(t, Edx) == FromLe32(current[4..]))
  {
    hide EffectiveAddress, Le32, FromLe32, MergeFlags, FlagWord;
  }

  lemma WordOfBytes(bytes: seq<u8>, word: u32)
    requires |bytes| == 4
    ensures FromLe32(bytes) == word <==> bytes == Le32(word)
  {
    LeOfFromLe(bytes);
  }

  lemma ZeroFlag(eflags: u32, zero: bool)
    ensures Bit(MergeFlags(eflags, ZERO, FlagWord(ZeroOnly(zero))), ZERO_BIT) == zero
  {
    hide Bit, MergeFlags;
    MergeBit(eflags, ZERO, FlagWord(ZeroOnly(zero)), ZERO_BIT);
    FlagBit(ZeroOnly(zero), ZERO_BIT);
    FlagBit(ZeroOnly(true), ZERO_BIT);
    assert FlagWord(ZeroOnly(true)) == ZERO;
  }
}
