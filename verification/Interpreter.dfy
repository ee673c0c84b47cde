/**
 The tier-0 interpreter as it runs (exec.rs): methods that change the CPU state
 and guest memory in place, in an order chosen so that a fault leaves both
 exactly as they were.
 */
module Interpreter {
  import opened Words
  import opened Bits
  import opened GuestCpu
  import opened Iced
  import opened AluFlags
  import opened Rotates
  import opened GuestMemory
  import opened Tier0
  import opened StringOps

  type Completion = Result<(), ExecError>

  /** All or nothing: the specified state on success, the old state and the specified error otherwise. */
  ghost predicate Commits(spec: Outcome, before: MState, r: Completion, after: MState) {
    match spec
    case Ok(t) => r.Ok? && after == t
    case Err(e) => r == Err(e) && after == before
  }

  /**
   What the decoder guarantees of two-operand exchanges: the second operand is a
   register, so that at most the first write of the two can fault.
   */
  predicate Encodable(i: Instruction) {
    i.mnemonic in {Xchg, Xadd} ==> i.Op(1).OpRegister?
  }

  class Machine {
    var cpu: CpuState
    var memory: Space

    constructor (cpu: CpuState, memory: Space)
      ensures State() == MState(cpu, memory)
    {
      this.cpu, this.memory := cpu, memory;
    }

    ghost function State(): MState
      reads this
    {
      MState(cpu, memory)
    }

    // --- operands ------------------------------------------------------------

    method ReadOperand(location: Location, w: Width) returns (r: Result<u32, ExecError>)
      ensures r == ReadAt(State(), location, w)
    {
      match location
      case InRegister(register) => r := ReadRegister(cpu, register);
      case InMemory(address) => r := LoadWidth(memory, address, w);
      case Constant(value) => r := Ok(Mask(value, w));
    }

    method WriteOperand(location: Location, w: Width, value: u32) returns (r: Completion)
      modifies this
      ensures Commits(WriteAt(old(State()), location, w, value), old(State()), r, State())
    {
      match location
      case InRegister(register) =>
        var written :- WriteRegister(cpu, register, Mask(value, w));
        cpu := written;
        return Ok(());
      case InMemory(address) =>
        var written :- StoreWidth(memory, address, w, value);
        memory := written;
        return Ok(());
      case Constant(_) =>
        return Err(Unsupported(cpu.eip));
    }

    method SetFlags(defined: u32, status: Status)
      modifies this
      ensures State() == WithFlags(old(State()), defined, status)
    {
      cpu := cpu.(eflags := MergeFlags(cpu.eflags, defined, FlagWord(status)));
    }

    // --- arithmetic, moves, exchanges -------------------------------------------

    method ExecuteAlu(i: Instruction) returns (r: Completion)
      modifies this
      ensures Commits(BinaryAlu(old(State()), i), old(State()), r, State())
    {
      hide Alu, MergeFlags, FlagWord, Locate, OperandWidth, ReadAt, WriteAt;
      var w :- OperandWidth(cpu, i, 0);
      var dst :- Locate(cpu, i, 0);
      var src :- Locate(cpu, i, 1);
      var a :- ReadOperand(dst, w);
      var b :- ReadOperand(src, w);
      var effect := Alu(i.mnemonic, a, b, Bit(cpu.eflags, CARRY_BIT), w);
      if effect.None? { return Err(Unsupported(cpu.eip)); }
      if effect.value.writes {
        var _ :- WriteOperand(dst, w, effect.value.result);
      }
      SetFlags(effect.value.defined, effect.value.status);
      return Ok(());
    }

    method ExecuteUnary(i: Instruction) returns (r: Completion)
      modifies this
      ensures Commits(Unary(old(State()), i), old(State()), r, State())
    {
      hide AddBits, SubBits, MergeFlags, FlagWord, Locate, OperandWidth, ReadAt, WriteAt;
      var w :- OperandWidth(cpu, i, 0);
      var dst :- Locate(cpu, i, 0);
      var a :- ReadOperand(dst, w);
      match i.mnemonic {
        case Inc =>
          var (result, status) := AddBits(a, 1, false, w);
          var _ :- WriteOperand(dst, w, result);
          SetFlags(INCDEC_DEFINED, status);
        case Dec =>
          var (result, status) := SubBits(a, 1, false, w);
          var _ :- WriteOperand(dst, w, result);
          SetFlags(INCDEC_DEFINED, status);
        case Neg =>
          var (result, status) := SubBits(0, a, false, w);
          var _ :- WriteOperand(dst, w, result);
          SetFlags(ARITHMETIC, status);
        case Not => var _ :- WriteOperand(dst, w, BitNot(a));
        case _ => return Err(Unsupported(cpu.eip));
      }
      return Ok(());
    }

    method ExecuteMov(i: Instruction) returns (r: Completion)
      modifies this
      ensures Commits(MovSpec(old(State()), i), old(State()), r, State())
    {
      hide Locate, OperandWidth, ReadAt, WriteAt;
      var w :- OperandWidth(cpu, i, 0);
      var src :- Locate(cpu, i, 1);
      var value :- ReadOperand(src, w);
      var dst :- Locate(cpu, i, 0);
      r := WriteOperand(dst, w, value);
    }

    method ExecuteWiden(i: Instruction, signed: bool) returns (r: Completion)
      modifies this
      ensures Commits(Widen(old(State()), i, signed), old(State()), r, State())
    {
      hide Locate, OperandWidth, ReadAt, WriteAt, SignExtend, Mask;
      var dw :- OperandWidth(cpu, i, 0);
      var sw :- OperandWidth(cpu, i, 1);
      var src :- Locate(cpu, i, 1);
      var raw :- ReadOperand(src, sw);
      var value := if signed then SignExtend(raw, sw) % TWO32 else Mask(raw, sw);
      var dst :- Locate(cpu, i, 0);
      r := WriteOperand(dst, dw, value);
    }

    method ExecuteLea(i: Instruction) returns (r: Completion)
      modifies this
      ensures Commits(LeaSpec(old(State()), i), old(State()), r, State())
    {
      hide EffectiveAddress, OperandWidth, WriteAt;
      if !i.Op(0).OpRegister? || !i.Op(1).OpMemory? { return Err(Unsupported(cpu.eip)); }
      var w :- OperandWidth(cpu, i, 0);
      var offset :- EffectiveAddress(cpu, i.memory, false);
      r := WriteOperand(InRegister(i.Op(0).register), w, offset);
    }

    method ExecuteXchg(i: Instruction) returns (r: Completion)
      requires i.Op(1).OpRegister?
      modifies this
      ensures Commits(XchgSpec(old(State()), i), old(State()), r, State())
    {
      hide EffectiveAddress, OperandWidth, Mask, RegisterSlot;
      var w :- OperandWidth(cpu, i, 0);
      var first :- Locate(cpu, i, 0);
      var second := InRegister(i.Op(1).register);
      var a :- ReadOperand(first, w);
      var b :- ReadOperand(second, w);
      var _ :- WriteOperand(first, w, b);
      r := WriteOperand(second, w, a);
    }

    /** The memory destination is written before the register source, so a fault changes nothing. */
    method ExecuteXadd(i: Instruction) returns (r: Completion)
      requires i.Op(1).OpRegister?
      modifies this
      ensures Commits(XaddSpec(old(State()), i), old(State()), r, State())
    {
      hide EffectiveAddress, RegisterSize, Mask, RegisterSlot, AddBits, MergeFlags, FlagWord, StoreWidth, LoadWidth;
      var w :- OperandWidth(cpu, i, 0);
      var dst :- Locate(cpu, i, 0);
      var src := InRegister(i.Op(1).register);
      var a :- ReadOperand(dst, w);
      var b :- ReadOperand(src, w);
      var (sum, status) := AddBits(a, b, false, w);
      if dst.InMemory? {
        var _ :- WriteOperand(dst, w, sum);
        var _ :- WriteOperand(src, w, a);
      } else {
        var _ :- WriteOperand(src, w, a);
        var _ :- WriteOperand(dst, w, sum);
      }
      SetFlags(ARITHMETIC, status);
      return Ok(());
    }

    method ExecuteCmpxchg(i: Instruction) returns (r: Completion)
      modifies this
      ensures Commits(CmpxchgSpec(old(State()), i), old(State()), r, State())
    {
      hide EffectiveAddress, OperandWidth, Mask, SubBits, MergeFlags, FlagWord, StoreWidth, LoadWidth;
      var w :- OperandWidth(cpu, i, 0);
      var dst :- Locate(cpu, i, 0);
      var src :- Locate(cpu, i, 1);
      var current :- ReadOperand(dst, w);
      var accumulator :- ReadRegister(cpu, Accumulator(w));
      var status := SubBits(accumulator, current, false, w).1;
      if accumulator == current {
        var replacement :- ReadOperand(src, w);
        var _ :- WriteOperand(dst, w, replacement);
      } else {
        var _ :- WriteOperand(dst, w, current);
        var _ :- WriteOperand(InRegister(Accumulator(w)), w, current);
      }
      SetFlags(ARITHMETIC, status);
      return Ok(());
    }

    method ExecuteCmpxchg8b(i: Instruction) returns (r: Completion)
      modifies this
      ensures Commits(Cmpxchg8bSpec(old(State()), i), old(State()), r, State())
    {
      hide EffectiveAddress, MergeFlags, FlagWord, Le32, FromLe32;
      if !i.Op(0).OpMemory? { return Err(Unsupported(cpu.eip)); }
      var location :- EffectiveAddress(cpu, i.memory, true);
      var current := memory.Load(location, 8, ReadAccess);
      if current.Err? { return Err(MemoryFault(current.error)); }
      var low, high := FromLe32(current.value[..4]), FromLe32(current.value[4..]);
      if low == cpu.Get(Eax) && high == cpu.Get(Edx) {
        var stored := memory.Store(location, Le32(cpu.Get(Ebx)) + Le32(cpu.Get(Ecx)));
        if stored.Err? { return Err(MemoryFault(stored.error)); }
        memory := stored.value;
        SetFlags(ZERO, ZeroOnly(true));
      } else {
        var stored := memory.Store(location, current.value);
        if stored.Err? { return Err(MemoryFault(stored.error)); }
        memory := stored.value;
        cpu := cpu.Set(Eax, low).Set(Edx, high);
        SetFlags(ZERO, ZeroOnly(false));
      }
      return Ok(());
    }

    // --- shifts and bit tests ---------------------------------------------------------

    method ExecuteShift(i: Instruction, kind: ShiftKind) returns (r: Completion)
      modifies this
      ensures Commits(ShiftOp(old(State()), i, kind), old(State()), r, State())
    {
      hide Locate, OperandWidth, ReadAt, WriteAt, Mask, ShiftSpec, ShiftCount, MergeFlags, FlagWord, ShiftMask, ShiftStatus;
      var w :- OperandWidth(cpu, i, 0);
      var count :- ShiftCount(cpu, i);
      var dst :- Locate(cpu, i, 0);
      var raw :- ReadOperand(dst, w);
      MaskBound(raw, w);
      var a := Mask(raw, w);
      if count == 0 {
        // Nothing is shifted, but the operand is written back and may fault.
        r := WriteOperand(dst, w, a);
        return;
      }
      var shifted := ShiftValue(kind, a, Bit(cpu.eflags, CARRY_BIT), count, w);
      var _ :- WriteOperand(dst, w, shifted.result);
      SetFlags(ShiftMask(kind, count, w), ShiftStatus(shifted, w));
      return Ok(());
    }

    method ExecuteBitTest(i: Instruction) returns (r: Completion)
      modifies this
      ensures Commits(BitTestOp(old(State()), i), old(State()), r, State())
    {
      hide BitLocation, OperandWidth, ReadAt, WriteAt, BitUpdate, MergeFlags, FlagWord, CarryOnly;
      var w :- OperandWidth(cpu, i, 0);
      if w == Byte { return Err(Unsupported(cpu.eip)); }
      var target :- BitLocation(MState(cpu, memory), i, w);
      var value :- ReadOperand(target.location, w);
      var carry := Bit(value, target.bit);
      var updated := BitUpdate(i.mnemonic, value, target.bit);
      if updated.Some? {
        var _ :- WriteOperand(target.location, w, updated.value);
      }
      SetFlags(CARRY, CarryOnly(carry));
      return Ok(());
    }

    // --- the stack -----------------------------------------------------------------------

    /** A push faults in its store or not at all, so ESP is set last. */
    method Push(w: Width, value: u32) returns (r: Completion)
      modifies this
      ensures Commits(PushValue(old(State()), w, value), old(State()), r, State())
    {
      var esp := WrapSub(cpu.Get(Esp), w.Bytes());
      var written :- StoreWidth(memory, esp, w, value);
      memory := written;
      cpu := cpu.Set(Esp, esp);
      return Ok(());
    }

    method ExecutePush(i: Instruction) returns (r: Completion)
      modifies this
      ensures Commits(PushSpec(old(State()), i), old(State()), r, State())
    {
      hide PushValue;
      var pushed :- PushOperand(MState(cpu, memory), i);
      r := Push(pushed.0, pushed.1);
    }

    /**
     The stack pointer is raised first and lowered again on a fault, so that a
     destination addressed by ESP is found from the raised one.
     */
    method ExecutePop(i: Instruction) returns (r: Completion)
      modifies this
      ensures Commits(PopSpec(old(State()), i), old(State()), r, State())
    {
      hide Locate, OperandWidth, LoadWidth, WriteAt;
      var w :- OperandWidth(cpu, i, 0);
      var value :- LoadWidth(memory, cpu.Get(Esp), w);
      var oldEsp := cpu.Get(Esp);
      cpu := cpu.Set(Esp, WrapAdd(oldEsp, w.Bytes()));
      var dst := Locate(cpu, i, 0);
      if dst.Err? {
        cpu := cpu.Set(Esp, oldEsp);
        assert cpu.gpr == old(cpu.gpr);
        return Err(dst.error);
      }
      var written := WriteOperand(dst.value, w, value);
      if written.Err? {
        cpu := cpu.Set(Esp, oldEsp);
        assert cpu.gpr == old(cpu.gpr);
        return Err(written.error);
      }
      return Ok(());
    }

    /** The frame goes out in a single store, which either happens whole or faults. */
    method ExecutePushad() returns (r: Completion)
      modifies this
      ensures Commits(PushadSpec(old(State())), old(State()), r, State())
    {
      hide Le32;
      var base := WrapSub(cpu.Get(Esp), 32);
      var frame := PushadFrame(MState(cpu, memory));
      var written := memory.Store(base, frame);
      if written.Err? { return Err(MemoryFault(written.error)); }
      memory := written.value;
      cpu := cpu.Set(Esp, base);
      return Ok(());
    }

    method ExecutePopad() returns (r: Completion)
      modifies this
      ensures Commits(PopadSpec(old(State())), old(State()), r, State())
    {
      hide FrameWords;
      var frame := memory.Load(cpu.Get(Esp), 32, ReadAccess);
      if frame.Err? { return Err(MemoryFault(frame.error)); }
      var words := FrameWords(frame.value);
      var gpr: seq<u32> := cpu.gpr;
      gpr := gpr[7 := words[0]][6 := words[1]][5 := words[2]];
      gpr := gpr[3 := words[4]][2 := words[5]][1 := words[6]][0 := words[7]];
      gpr := gpr[4 := WrapAdd(gpr[4], 32)];
      assert gpr == RestoredRegisters(words, WrapAdd(cpu.gpr[4], 32));
      cpu := cpu.(gpr := gpr);
      return Ok(());
    }

    method ExecuteLeave(i: Instruction) returns (r: Completion)
      modifies this
      ensures Commits(LeaveSpec(old(State()), i), old(State()), r, State())
    {
      hide LoadWidth;
      if !i.near32 { return Err(Unsupported(cpu.eip)); }
      var frame := cpu.Get(Ebp);
      var value :- LoadWidth(memory, frame, Dword);
      cpu := cpu.Set(Esp, WrapAdd(frame, 4));
      cpu := cpu.Set(Ebp, value);
      return Ok(());
    }

    // --- conditional data and control flow ---------------------------------------------------

    method ExecuteSetcc(i: Instruction) returns (r: Completion)
      modifies this
      ensures Commits(SetccSpec(old(State()), i), old(State()), r, State())
    {
      hide Locate, WriteAt;
      var met := ConditionMet(cpu.eflags, i.condition);
      var dst :- Locate(cpu, i, 0);
      r := WriteOperand(dst, Byte, BitOf(met));
    }

    method ExecuteCmov(i: Instruction) returns (r: Completion)
      modifies this
      ensures Commits(CmovSpec(old(State()), i), old(State()), r, State())
    {
      hide Locate, WriteAt, ReadAt, OperandWidth;
      var met := ConditionMet(cpu.eflags, i.condition);
      var w :- OperandWidth(cpu, i, 0);
      var src :- Locate(cpu, i, 1);
      var value :- ReadOperand(src, w);
      if met {
        var dst :- Locate(cpu, i, 0);
        var _ :- WriteOperand(dst, w, value);
      }
      return Ok(());
    }

    method ExecuteRet(i: Instruction) returns (r: Completion)
      modifies this
      ensures Commits(RetSpec(old(State()), i), old(State()), r, State())
    {
      hide LoadWidth;
      if !i.near32 { return Err(Unsupported(cpu.eip)); }
      var target :- LoadWidth(memory, cpu.Get(Esp), Dword);
      cpu := cpu.Set(Esp, WrapAdd(cpu.Get(Esp), 4));
      var release := if i.Op(0).Immediate16? then i.Op(0).imm16 else 0;
      cpu := cpu.Set(Esp, WrapAdd(cpu.Get(Esp), release));
      cpu := cpu.(eip := target);
      return Ok(());
    }

    method ExecuteCall(i: Instruction) returns (r: Completion)
      modifies this
      ensures Commits(CallSpec(old(State()), i), old(State()), r, State())
    {
      hide BranchTarget, PushValue;
      var fallthrough := WrapAdd(cpu.eip, i.len);
      var target :- BranchTarget(MState(cpu, memory), i);
      var _ :- Push(Dword, fallthrough);
      cpu := cpu.(eip := target);
      return Ok(());
    }

    method ExecuteJmp(i: Instruction) returns (r: Completion)
      modifies this
      ensures Commits(JmpSpec(old(State()), i), old(State()), r, State())
    {
      hide BranchTarget;
      var target :- BranchTarget(MState(cpu, memory), i);
      cpu := cpu.(eip := target);
      return Ok(());
    }

    method ExecuteJcc(i: Instruction) returns (r: Completion)
      modifies this
      ensures Commits(JccSpec(old(State()), i), old(State()), r, State())
    {
      hide ConditionMet;
      if !i.Op(0).NearBranch32? { return Err(Unsupported(cpu.eip)); }
      var taken := ConditionMet(cpu.eflags, i.condition);
      cpu := cpu.(eip := if taken then i.Op(0).target else WrapAdd(cpu.eip, i.len));
      return Ok(());
    }

    /** Counts ECX down, then branches while it lasts and the condition allows. */
    method ExecuteLoop(i: Instruction) returns (r: Completion)
      modifies this
      ensures Commits(LoopSpec(old(State()), i), old(State()), r, State())
    {
      hide Bit, LoopTaken, WrapSub;
      if !i.near32 || !i.Op(0).NearBranch32? { return Err(Unsupported(cpu.eip)); }
      var counter := WrapSub(cpu.gpr[1], 1);
      var fallthrough := WrapAdd(cpu.eip, i.len);
      cpu := cpu.(gpr := cpu.gpr[1 := counter]);
      var taken := LoopTaken(i.mnemonic, counter, Bit(cpu.eflags, ZERO_BIT));
      cpu := cpu.(eip := if taken then i.Op(0).target else fallthrough);
      return Ok(());
    }

    method ExecuteJecxz(i: Instruction) returns (r: Completion)
      modifies this
      ensures Commits(JecxzSpec(old(State()), i), old(State()), r, State())
    {
      if !i.near32 || !i.Op(0).NearBranch32? { return Err(Unsupported(cpu.eip)); }
      cpu := cpu.(eip := if cpu.gpr[1] == 0 then i.Op(0).target else WrapAdd(cpu.eip, i.len));
      return Ok(());
    }

    method ExecuteBranch(i: Instruction) returns (r: Completion)
      requires IsBranch(i.mnemonic)
      modifies this
      ensures Commits(Execute(old(State()), i), old(State()), r, State())
    {
      hide JmpSpec, CallSpec, RetSpec, JccSpec, LoopSpec, JecxzSpec, StraightLine, Advance;
      if i.mnemonic == Jmp { r := ExecuteJmp(i); }
      else if i.mnemonic == Call { r := ExecuteCall(i); }
      else if i.mnemonic == Ret { r := ExecuteRet(i); }
      else if i.mnemonic == Jcc { r := ExecuteJcc(i); }
      else if i.mnemonic == Jecxz { r := ExecuteJecxz(i); }
      else { r := ExecuteLoop(i); }
    }

    // --- one instruction ------------------------------------------------------------------------

    /** Data movement and exchanges. */
    method ExecuteMoves(i: Instruction) returns (r: Completion)
      requires Encodable(i) && i.mnemonic in {Mov, Movzx, Movsx, Lea, Xchg, Xadd, Cmpxchg, Cmpxchg8b, Setcc, Cmovcc}
      modifies this
      ensures Commits(StraightLine(old(State()), i), old(State()), r, State())
    {
      hide MovSpec, Widen, LeaSpec, XchgSpec, XaddSpec, CmpxchgSpec, Cmpxchg8bSpec, SetccSpec, CmovSpec;
      var m := i.mnemonic;
      if m == Mov { r := ExecuteMov(i); }
      else if m == Movzx { r := ExecuteWiden(i, false); }
      else if m == Movsx { r := ExecuteWiden(i, true); }
      else if m == Lea { r := ExecuteLea(i); }
      else if m == Xchg { r := ExecuteXchg(i); }
      else if m == Xadd { r := ExecuteXadd(i); }
      else if m == Cmpxchg { r := ExecuteCmpxchg(i); }
      else if m == Cmpxchg8b { r := ExecuteCmpxchg8b(i); }
      else if m == Setcc { r := ExecuteSetcc(i); }
      else { r := ExecuteCmov(i); }
    }

    /** The stack instructions. */
    method ExecuteStack(i: Instruction) returns (r: Completion)
      requires i.mnemonic in {Mnemonic.Push, Pop, Pushad, Popad, Leave}
      modifies this
      ensures Commits(StraightLine(old(State()), i), old(State()), r, State())
    {
      hide PushSpec, PopSpec, PushadSpec, PopadSpec, LeaveSpec;
      var m := i.mnemonic;
      if m == Mnemonic.Push { r := ExecutePush(i); }
      else if m == Pop { r := ExecutePop(i); }
      else if m == Pushad { r := ExecutePushad(); }
      else if m == Popad { r := ExecutePopad(); }
      else { r := ExecuteLeave(i); }
    }

    method ExecuteStraightLine(i: Instruction) returns (r: Completion)
      requires Encodable(i)
      modifies this
      ensures Commits(StraightLine(old(State()), i), old(State()), r, State())
    {
      hide BinaryAlu, Unary, MovSpec, Widen, LeaSpec, XchgSpec, XaddSpec, CmpxchgSpec, Cmpxchg8bSpec, ShiftOp, BitTestOp,
           PushSpec, PopSpec, PushadSpec, PopadSpec, LeaveSpec, SetccSpec, CmovSpec;
      var m := i.mnemonic;
      if m == Nop { r := Ok(()); }
      else if m in {Mov, Movzx, Movsx, Lea, Xchg, Xadd, Cmpxchg, Cmpxchg8b, Setcc, Cmovcc} { r := ExecuteMoves(i); }
      else if m in {Add, Adc, Sub, Sbb, And, Or, Xor, Cmp, Test} { r := ExecuteAlu(i); }
      else if m in {Inc, Dec, Neg, Not} { r := ExecuteUnary(i); }
      else if m in {Bt, Bts, Btr, Btc} { r := ExecuteBitTest(i); }
      else if m in {Mnemonic.Push, Pop, Pushad, Popad, Leave} { r := ExecuteStack(i); }
      else if KindOf(m).Some? { r := ExecuteShift(i, KindOf(m).value); }
      else { r := Err(Unsupported(cpu.eip)); }
    }

    // --- string instructions ----------------------------------------------------------------------

    method ExecuteElement(p: Plan) returns (r: Completion)
      modifies this
      ensures Commits(Element(old(State()), p), old(State()), r, State())
    {
      hide LoadWidth, StoreWidth, SubBits, MergeFlags, FlagWord, Mask, WrapAdd, Bit, ReplaceLow;
      var s := MState(cpu, memory);
      var delta := Delta(s, p);
      var source, destination := SourceOf(s, p), DestinationOf(s, p);
      if p.kind.SMovs? {
        var value :- LoadWidth(memory, source, p.w);
        var written :- StoreWidth(memory, destination, p.w, value);
        memory := written;
        cpu := cpu.Set(Esi, WrapAdd(cpu.Get(Esi), delta));
        cpu := cpu.Set(Edi, WrapAdd(cpu.Get(Edi), delta));
      } else if p.kind.SStos? {
        var written :- StoreWidth(memory, destination, p.w, AccumulatorValue(s, p.w));
        memory := written;
        cpu := cpu.Set(Edi, WrapAdd(cpu.Get(Edi), delta));
      } else if p.kind.SLods? {
        var value :- LoadWidth(memory, source, p.w);
        cpu := WithAccumulator(s, p.w, value).cpu;
        cpu := cpu.Set(Esi, WrapAdd(cpu.Get(Esi), delta));
      } else if p.kind.SScas? {
        var value :- LoadWidth(memory, destination, p.w);
        SetFlags(ARITHMETIC, SubBits(AccumulatorValue(s, p.w), value, false, p.w).1);
        cpu := cpu.Set(Edi, WrapAdd(cpu.Get(Edi), delta));
      } else {
        var a :- LoadWidth(memory, source, p.w);
        var b :- LoadWidth(memory, destination, p.w);
        SetFlags(ARITHMETIC, SubBits(a, b, false, p.w).1);
        cpu := cpu.Set(Esi, WrapAdd(cpu.Get(Esi), delta));
        cpu := cpu.Set(Edi, WrapAdd(cpu.Get(Edi), delta));
      }
      return Ok(());
    }

    /** What one string instruction leaves, before the caller advances EIP. */
    ghost predicate StringEffect(before: MState, p: Plan, len: u8, r: Completion, after: MState) {
      if !p.repeated then Commits(Element(before, p), before, r, after) else
      match Chunk(before, p, MAX_REP_ITERATIONS_PER_STEP)
      case Complete(t) => r.Ok? && after == t
      case Paused(t) => r.Ok? && after == JumpTo(t, WrapSub(t.cpu.eip, len))
      case ChunkFaulted(t, e) => r == Err(e) && after == t
    }

    /**
     The repeat loop: progress is committed per iteration, and a long repeat
     pauses with EIP compensated for the caller's advance.
     */
    method RunString(p: Plan, len: u8) returns (r: Completion)
      modifies this
      ensures StringEffect(old(State()), p, len, r, State())
    {
      hide Element, Stops;
      var iterations := 0;
      while true
        invariant 0 <= iterations <= MAX_REP_ITERATIONS_PER_STEP
        invariant !p.repeated ==> iterations == 0 && State() == old(State())
        invariant p.repeated ==>
                    Chunk(State(), p, MAX_REP_ITERATIONS_PER_STEP - iterations) == Chunk(old(State()), p, MAX_REP_ITERATIONS_PER_STEP)
        decreases MAX_REP_ITERATIONS_PER_STEP - iterations
      {
        if p.repeated && cpu.Get(Ecx) == 0 { return Ok(()); }
        if p.repeated && iterations == MAX_REP_ITERATIONS_PER_STEP {
          cpu := cpu.(eip := WrapSub(cpu.eip, len));
          return Ok(());
        }
        iterations := iterations + 1;
        var _ :- ExecuteElement(p);
        if !p.repeated { return Ok(()); }
        cpu := cpu.Set(Ecx, WrapSub(cpu.Get(Ecx), 1));
        if Stops(MState(cpu, memory), p) { return Ok(()); }
      }
    }

    /** A string step commits the finished or paused state, or keeps a fault's progress. */
    ghost predicate StringCommits(before: MState, i: Instruction, r: Completion, after: MState) {
      Ends(StringStep(before, i), r, after)
    }

    ghost predicate Ends(result: RepResult, r: Completion, after: MState) {
      match result
      case Finished(t) => r.Ok? && after == t
      case Faulted(t, e) => r == Err(e) && after == t
    }

    lemma EipCompensates(eip: u32, len: u8)
      ensures WrapAdd(WrapSub(eip, len), len) == eip
    {}

    method ExecuteString(i: Instruction) returns (r: Completion)
      modifies this
      ensures StringCommits(old(State()), i, r, State())
    {
      hide MakePlan, Element, Chunk, WrapAdd, WrapSub;
      var p :- MakePlan(cpu, i);
      EipCompensates(cpu.eip, i.len);
      ChunkRefines(State(), p, MAX_REP_ITERATIONS_PER_STEP);
      var _ :- RunString(p, i.len);
      cpu := cpu.(eip := WrapAdd(cpu.eip, i.len));
      cpu := cpu.(tsc := (cpu.tsc + 1) % 0x1_0000_0000_0000_0000);
      return Ok(());
    }

    /**
     Executes one decoded instruction. Fault atomicity: an error of anything but
     a string instruction leaves the CPU state and guest memory exactly as they
     were; a faulting string instruction keeps its completed iterations.
     */
    method StepDecoded(i: Instruction) returns (r: Completion)
      requires Encodable(i)
      modifies this
      ensures !IsString(i.mnemonic) ==> Commits(StepSpec(old(State()), i), old(State()), r, State())
      ensures !IsString(i.mnemonic) && r.Err? ==> State() == old(State())
      ensures IsString(i.mnemonic) ==> StringCommits(old(State()), i, r, State())
    {
      hide StraightLine, JmpSpec, CallSpec, RetSpec, JccSpec, LoopSpec, JecxzSpec, StringCommits;
      if IsString(i.mnemonic) {
        r := ExecuteString(i);
        return;
      }
      if IsBranch(i.mnemonic) {
        var _ :- ExecuteBranch(i);
      } else {
        var _ :- ExecuteStraightLine(i);
        cpu := cpu.(eip := WrapAdd(cpu.eip, i.len));
      }
      cpu := cpu.(tsc := (cpu.tsc + 1) % 0x1_0000_0000_0000_0000);
      return Ok(());
    }

    /** Steps a string instruction as the run loop does, while EIP stays on it. */
    method RunStringUntilMoved(i: Instruction) returns (r: Completion)
      requires i.len > 0
      modifies this
      ensures Ends(StepUntilMoved(old(State()), i), r, State())
    {
      hide MakePlan, StepString;
      r := Ok(());
      var eip := cpu.eip;
      while cpu.eip == eip
        invariant r.Ok? && (cpu.eip == eip ==> StepUntilMoved(State(), i) == StepUntilMoved(old(State()), i))
        invariant cpu.eip != eip ==> Ends(StepUntilMoved(old(State()), i), r, State())
        decreases cpu.eip == eip, Reg(State(), Ecx)
      {
        ghost var before := State();
        r := ExecuteString(i);
        if r.Err? { return; }
        UnmovedIsPaused(before, i);
      }
    }
  }
}
