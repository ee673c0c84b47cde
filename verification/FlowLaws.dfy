/**
 Control flow and the stack over whole tier-0 steps (exec.rs, `execute_branch`,
 `push_value` and the operations around them): where execution goes, what is
 left on the stack, and that nothing else changes, in terms of the registers by
 number and the bytes in memory.
 */
module FlowLaws {
  import opened Words
  import opened Bits
  import opened GuestCpu
  import opened Iced
  import opened AluFlags
  import opened GuestMemory
  import opened Tier0
  import opened OperandLaws
  import opened InstructionLaws
  import opened Tier0Laws
  import opened StepLaws
  import opened MoveLaws

  /** A step that ended somewhere, with these registers and this memory. */
  function Landed(s: MState, gpr: RegisterFile, memory: Space, target: u32): MState {
    MState(s.cpu.(gpr := gpr, eip := target, tsc := (s.cpu.tsc + 1) % TWO64), memory)
  }

  /** The address of the next instruction. */
  function Next(s: MState, i: Instruction): u32 { (s.cpu.eip + i.len) % TWO32 }

  /** A branch step is its effect, counted. */
  lemma BranchStep(s: MState, i: Instruction, t: MState) returns (u: MState)
    requires StepSpec(s, i) == Ok(t)
    ensures Execute(s, i) == Ok(u) && t == Retire(u)
  {
    hide Execute;
    u := Execute(s, i).value;
  }

  /** Which effect each branch names. */
  lemma BranchDispatch(s: MState, i: Instruction)
    ensures i.mnemonic == Jmp ==> Execute(s, i) == JmpSpec(s, i)
    ensures i.mnemonic == Call ==> Execute(s, i) == CallSpec(s, i)
    ensures i.mnemonic == Ret ==> Execute(s, i) == RetSpec(s, i)
    ensures i.mnemonic == Jcc ==> Execute(s, i) == JccSpec(s, i)
    ensures i.mnemonic in {Loop, Loope, Loopne} ==> Execute(s, i) == LoopSpec(s, i)
    ensures i.mnemonic == Jecxz ==> Execute(s, i) == JecxzSpec(s, i)
  {
    hide JmpSpec, CallSpec, RetSpec, JccSpec, LoopSpec, JecxzSpec, StraightLine;
  }

  // --- conditional branches ----------------------------------------------------------------

  /** A conditional jump goes to its target or to the next instruction, and changes nothing else. */
  lemma JccMeans(s: MState, i: Instruction, target: u32, t: MState)
    requires i.mnemonic == Jcc && i.Op(0) == NearBranch32(target) && StepSpec(s, i) == Ok(t)
    ensures t == Landed(s, s.cpu.gpr, s.memory, if ConditionMet(s.cpu.eflags, i.condition) then target else Next(s, i))
  {
    hide StepSpec, Execute, ConditionMet, JccSpec;
    BranchDispatch(s, i);
    var u := BranchStep(s, i, t);
    JccIs(s, i, target, u);
  }

  lemma JccIs(s: MState, i: Instruction, target: u32, u: MState)
    requires i.Op(0) == NearBranch32(target) && JccSpec(s, i) == Ok(u)
    ensures Retire(u) == Landed(s, s.cpu.gpr, s.memory, if ConditionMet(s.cpu.eflags, i.condition) then target else Next(s, i))
  {
    hide ConditionMet;
  }

  /** CMP then Jcc: the jump is taken exactly when the operands are so related. */
  lemma CompareThenJump(s: MState, i: Instruction, w: Width, dst: Location, src: Location, a: u32, b: u32, t: MState,
                        j: Instruction, target: u32, u: MState)
    requires Operands(s, i, w, dst, src, a, b) && i.mnemonic == Cmp && StepSpec(s, i) == Ok(t)
    requires j.mnemonic == Jcc && j.Op(0) == NearBranch32(target) && Relational(j.condition) && StepSpec(t, j) == Ok(u)
    ensures u == Landed(t, s.cpu.gpr, s.memory,
                        if Relation(j.condition, a, b, SignExtend(a, w), SignExtend(b, w)) then target else Next(t, j))
  {
    hide Operands, StepSpec, ConditionMet, Relation, SignExtend, AluStatusOf, FlagsLeft;
    AluMeans(s, i, w, dst, src, a, b, t);
    ConditionsMean(s, i, w, dst, src, a, b, t, j.condition);
    JccMeans(t, j, target, u);
  }

  /** TEST then Jcc: equal is a common bit of none, negative a top bit of both. */
  lemma TestThenJump(s: MState, i: Instruction, w: Width, dst: Location, src: Location, a: u32, b: u32, t: MState,
                     j: Instruction, target: u32, u: MState)
    requires Operands(s, i, w, dst, src, a, b) && i.mnemonic == Test && StepSpec(s, i) == Ok(t)
    requires j.mnemonic == Jcc && j.Op(0) == NearBranch32(target) && j.condition in {CcE, CcS} && StepSpec(t, j) == Ok(u)
    ensures j.condition == CcE ==>
              u == Landed(t, s.cpu.gpr, s.memory, if forall k :: 0 <= k < 32 ==> !(Bit(a, k) && Bit(b, k)) then target else Next(t, j))
    ensures j.condition == CcS ==>
              u == Landed(t, s.cpu.gpr, s.memory, if SignExtend(a, w) < 0 && SignExtend(b, w) < 0 then target else Next(t, j))
  {
    hide Operands, StepSpec, ConditionMet, SignExtend, AluStatusOf, FlagsLeft, Bit;
    AluMeans(s, i, w, dst, src, a, b, t);
    ConditionsMean(s, i, w, dst, src, a, b, t, j.condition);
    JccMeans(t, j, target, u);
  }

  // --- counted branches -----------------------------------------------------------------------

  /** The registers with ECX counted down once. */
  function Counted(gpr: RegisterFile): RegisterFile { gpr[1 := (gpr[1] - 1) % TWO32] }

  /** LOOP counts ECX down and jumps while it is not zero; LOOPE and LOOPNE also ask the zero flag, bit six. */
  lemma LoopMeans(s: MState, i: Instruction, target: u32, t: MState)
    requires i.mnemonic in {Loop, Loope, Loopne} && i.Op(0) == NearBranch32(target) && StepSpec(s, i) == Ok(t)
    ensures var counted := Counted(s.cpu.gpr);
            var taken := counted[1] != 0 && (i.mnemonic == Loope ==> Bit(s.cpu.eflags, 6)) && (i.mnemonic == Loopne ==> !Bit(s.cpu.eflags, 6));
            t == Landed(s, counted, s.memory, if taken then target else Next(s, i))
  {
    hide StepSpec, Execute, Bit, LoopSpec, Counted;
    BranchDispatch(s, i);
    var u := BranchStep(s, i, t);
    LoopIs(s, i, target, u);
  }

  lemma LoopIs(s: MState, i: Instruction, target: u32, u: MState)
    requires i.mnemonic in {Loop, Loope, Loopne} && i.Op(0) == NearBranch32(target) && LoopSpec(s, i) == Ok(u)
    ensures var counted := Counted(s.cpu.gpr);
            var taken := counted[1] != 0 && (i.mnemonic == Loope ==> Bit(s.cpu.eflags, 6)) && (i.mnemonic == Loopne ==> !Bit(s.cpu.eflags, 6));
            Retire(u) == Landed(s, counted, s.memory, if taken then target else Next(s, i))
  {
    hide Bit;
  }

  /** CMP then LOOPE or LOOPNE: while the count lasts, and the operands are equal, or are not. */
  lemma CompareThenLoop(s: MState, i: Instruction, w: Width, dst: Location, src: Location, a: u32, b: u32, t: MState,
                        j: Instruction, target: u32, u: MState)
    requires Operands(s, i, w, dst, src, a, b) && i.mnemonic == Cmp && StepSpec(s, i) == Ok(t)
    requires j.mnemonic in {Loope, Loopne} && j.Op(0) == NearBranch32(target) && StepSpec(t, j) == Ok(u)
    ensures var counted := Counted(s.cpu.gpr);
            var taken := counted[1] != 0 && (j.mnemonic == Loope <==> a == b);
            u == Landed(t, counted, s.memory, if taken then target else Next(t, j))
  {
    hide Operands, StepSpec, AluStatusOf, FlagsLeft, Bit, Counted;
    AluMeans(s, i, w, dst, src, a, b, t);
    CompareSetsZero(s, i, w, dst, src, a, b, t);
    LoopMeans(t, j, target, u);
  }

  lemma CompareSetsZero(s: MState, i: Instruction, w: Width, dst: Location, src: Location, a: u32, b: u32, t: MState)
    requires Operands(s, i, w, dst, src, a, b) && i.mnemonic == Cmp && StepSpec(s, i) == Ok(t)
    ensures Bit(t.cpu.eflags, 6) <==> a == b
  {
    hide Operands, StepSpec, AluStatusOf, FlagsLeft, SignExtend, Bit;
    ConditionsMean(s, i, w, dst, src, a, b, t, CcE);
  }

  /** JECXZ jumps exactly when ECX is zero. */
  lemma JecxzMeans(s: MState, i: Instruction, target: u32, t: MState)
    requires i.mnemonic == Jecxz && i.Op(0) == NearBranch32(target) && StepSpec(s, i) == Ok(t)
    ensures t == Landed(s, s.cpu.gpr, s.memory, if s.cpu.gpr[1] == 0 then target else Next(s, i))
  {
    hide StepSpec, Execute, JecxzSpec;
    BranchDispatch(s, i);
    var u := BranchStep(s, i, t);
    JecxzIs(s, i, target, u);
  }

  lemma JecxzIs(s: MState, i: Instruction, target: u32, u: MState)
    requires i.Op(0) == NearBranch32(target) && JecxzSpec(s, i) == Ok(u)
    ensures Retire(u) == Landed(s, s.cpu.gpr, s.memory, if s.cpu.gpr[1] == 0 then target else Next(s, i))
  {}

  // --- jumps, calls and returns ------------------------------------------------------------------

  /** Where a jump or call goes: a constant, the 32-bit register it names, or the four bytes at an address. */
  ghost predicate Goes(s: MState, i: Instruction, target: u32) {
    match i.Op(0)
    case NearBranch32(constant) => target == constant
    case OpRegister(register) => exists k: nat :: k < 8 && register == Named(k) && target == s.cpu.gpr[k]
    case OpMemory => i.near32 && exists address: u32 :: EffectiveAddress(s.cpu, i.memory, true) == Ok(address) && HoldsNumber(s.memory, address, Dword, target)
    case _ => false
  }

  /** Readable bytes of a width hold a number, little end first. */
  predicate HoldsNumber(memory: Space, address: u32, w: Width, value: u32) {
    value < w.Modulus() && memory.Load(address, w.Bytes(), ReadAccess) == Ok(Le(value, w.Bytes()))
  }

  lemma LoadHolds(memory: Space, address: u32, w: Width, value: u32)
    ensures LoadWidth(memory, address, w) == Ok(value) <==> HoldsNumber(memory, address, w, value)
  {
    hide Le, FromLe, Pow256;
    WidthBytes(w);
    if value < w.Modulus() { FromLeOfLe(value, w.Bytes()); }
    var read := memory.Load(address, w.Bytes(), ReadAccess);
    if read.Ok? { LeOfFromLe(read.value); }
  }

  lemma TargetMeans(s: MState, i: Instruction, target: u32)
    ensures BranchTarget(s, i) == Ok(target) <==> Goes(s, i, target)
  {
    hide EffectiveAddress, LoadWidth, HoldsNumber, ReadRegister, RegisterSize, Named;
    match i.Op(0)
    case OpRegister(register) => RegisterGoes(s, register, target);
    case OpMemory =>
      var location := EffectiveAddress(s.cpu, i.memory, true);
      if location.Ok? { LoadHolds(s.memory, location.value, Dword, target); }
    case _ =>
  }

  lemma RegisterGoes(s: MState, register: Register, target: u32)
    ensures RegisterSize(register) == 4 && ReadRegister(s.cpu, register) == Ok(target) <==>
            exists k: nat :: k < 8 && register == Named(k) && target == s.cpu.gpr[k]
  {
    hide ReadRegister, RegisterSize;
    if RegisterSize(register) == 4 && ReadRegister(s.cpu, register) == Ok(target) {
      var k := NameOf(register);
      RegistersMean(s.cpu, k);
    }
    forall k: nat | k < 8 && register == Named(k) && target == s.cpu.gpr[k]
      ensures RegisterSize(register) == 4 && ReadRegister(s.cpu, register) == Ok(target)
    {
      RegistersMean(s.cpu, k);
    }
  }

  lemma NameOf(register: Register) returns (k: nat)
    requires RegisterSize(register) == 4
    ensures k < 8 && register == Named(k)
  {
    k := RegisterSlot(register).index;
  }

  /** JMP goes to its target and changes nothing else. */
  lemma JmpMeans(s: MState, i: Instruction, t: MState)
    requires i.mnemonic == Jmp
    ensures StepSpec(s, i) == Ok(t) <==> exists target :: Goes(s, i, target) && t == Landed(s, s.cpu.gpr, s.memory, target)
  {
    hide Goes, BranchTarget, Execute;
    BranchDispatch(s, i);
    if StepSpec(s, i) == Ok(t) {
      TargetMeans(s, i, t.cpu.eip);
    }
    forall target | Goes(s, i, target) ensures StepSpec(s, i) == Ok(Landed(s, s.cpu.gpr, s.memory, target)) {
      TargetMeans(s, i, target);
    }
  }

  /** CALL leaves the next address below the stack, moves ESP there and goes to its target. */
  lemma CallMeans(s: MState, i: Instruction, t: MState)
    requires i.mnemonic == Call && StepSpec(s, i) == Ok(t)
    ensures Goes(s, i, t.cpu.eip)
    ensures s.memory.Store((s.cpu.gpr[4] - 4) % TWO32, Le32(Next(s, i))) == Ok(t.memory)
    ensures t == Landed(s, s.cpu.gpr[4 := (s.cpu.gpr[4] - 4) % TWO32], t.memory, t.cpu.eip)
  {
    hide Goes, BranchTarget, Execute, StepSpec, CallSpec, Le, Next;
    BranchDispatch(s, i);
    var u := BranchStep(s, i, t);
    CallIs(s, i, u);
    TargetMeans(s, i, u.cpu.eip);
  }

  lemma CallIs(s: MState, i: Instruction, u: MState)
    requires CallSpec(s, i) == Ok(u)
    ensures BranchTarget(s, i) == Ok(u.cpu.eip)
    ensures s.memory.Store((s.cpu.gpr[4] - 4) % TWO32, Le32(Next(s, i))) == Ok(u.memory)
    ensures Retire(u) == Landed(s, s.cpu.gpr[4 := (s.cpu.gpr[4] - 4) % TWO32], u.memory, u.cpu.eip)
  {
    hide BranchTarget, PushValue, Le, Le32;
    var pushed := PushValue(s, Dword, Fallthrough(s, i)).value;
    PushIs(s, Dword, Fallthrough(s, i), pushed);
    assert Fallthrough(s, i) == Next(s, i);
    SameBytes(Next(s, i));
  }

  lemma SameBytes(value: u32)
    ensures Le32(value) == Le(value, 4)
  {}

  /** RET goes to the address on top of the stack and releases it, with as many bytes more as its operand says. */
  lemma RetMeans(s: MState, i: Instruction, released: nat, t: MState)
    requires i.mnemonic == Ret && StepSpec(s, i) == Ok(t)
    requires if i.Op(0).Immediate16? then released == i.Op(0).imm16 else released == 0
    ensures HoldsNumber(s.memory, s.cpu.gpr[4], Dword, t.cpu.eip)
    ensures t == Landed(s, s.cpu.gpr[4 := (s.cpu.gpr[4] + 4 + released) % TWO32], s.memory, t.cpu.eip)
  {
    hide Execute, StepSpec, RetSpec, HoldsNumber;
    BranchDispatch(s, i);
    var u := BranchStep(s, i, t);
    RetIs(s, i, released, u);
  }

  lemma RetIs(s: MState, i: Instruction, released: nat, u: MState)
    requires RetSpec(s, i) == Ok(u)
    requires if i.Op(0).Immediate16? then released == i.Op(0).imm16 else released == 0
    ensures HoldsNumber(s.memory, s.cpu.gpr[4], Dword, u.cpu.eip)
    ensures Retire(u) == Landed(s, s.cpu.gpr[4 := (s.cpu.gpr[4] + 4 + released) % TWO32], s.memory, u.cpu.eip)
  {
    hide LoadWidth, HoldsNumber;
    LoadHolds(s.memory, s.cpu.gpr[4], Dword, u.cpu.eip);
    WrapSum(s.cpu.gpr[4], 4, released);
  }

  // --- the stack -----------------------------------------------------------------------------------

  /** A number has one encoding at a width. */
  lemma HoldsOne(memory: Space, address: u32, w: Width, x: u32, y: u32)
    requires HoldsNumber(memory, address, w, x) && HoldsNumber(memory, address, w, y)
    ensures x == y
  {
    hide Le, FromLe, Pow256;
    WidthBytes(w);
    FromLeOfLe(x, w.Bytes());
    FromLeOfLe(y, w.Bytes());
  }

  /** What was stored is what a later read there finds, whenever that read succeeds. */
  lemma StoredHolds(memory: Space, address: u32, w: Width, value: u32, after: Space, read: u32)
    requires value < w.Modulus() && memory.Store(address, Le(value, w.Bytes())) == Ok(after) && HoldsNumber(after, address, w, read)
    ensures read == value
  {
    StillReadable(memory, address, Le(value, w.Bytes()));
    hide Le;
    LoadAfterStore(memory, address, Le(value, w.Bytes()));
    HoldsOne(after, address, w, value, read);
  }

  lemma StillReadable(memory: Space, address: u32, data: seq<u8>)
    requires data != [] && memory.Store(address, data).Ok? && memory.Store(address, data).value.Load(address, |data|, ReadAccess).Ok?
    ensures memory.Load(address, |data|, ReadAccess).Ok?
  {
    hide *;
    var after := memory.Store(address, data).value;
    StoreFacts(memory, address, data);
    SameTranslations(memory, after, address, |data|, ReadAccess);
    LoadIs(memory, address, |data|, ReadAccess);
    LoadIs(after, address, |data|, ReadAccess);
  }

  lemma StackDispatch(s: MState, i: Instruction)
    ensures i.mnemonic == Push ==> StraightLine(s, i) == PushSpec(s, i)
    ensures i.mnemonic == Pop ==> StraightLine(s, i) == PopSpec(s, i)
    ensures i.mnemonic == Pushad ==> StraightLine(s, i) == PushadSpec(s)
    ensures i.mnemonic == Popad ==> StraightLine(s, i) == PopadSpec(s)
    ensures i.mnemonic == Leave ==> StraightLine(s, i) == LeaveSpec(s, i)
  {
    hide MovSpec, Widen, LeaSpec, XchgSpec, XaddSpec, CmpxchgSpec, Cmpxchg8bSpec, Unary, SetccSpec, CmovSpec, BinaryAlu, BitTestOp,
         PushSpec, PopSpec, PushadSpec, PopadSpec, LeaveSpec, ShiftOp;
  }

  /** What PUSH pushes: sign-extended bytes, constants as they are, or the operand at its own width. */
  ghost predicate Pushes(s: MState, i: Instruction, w: Width, value: u32) {
    match i.Op(0)
    case Immediate8to32(v) => w == Dword && value == SignExtend(v, Byte) % TWO32
    case Immediate8to16(v) => w == Word && value == SignExtend(v, Byte) % 0x1_0000
    case Immediate32(v) => w == Dword && value == v
    case Immediate16(v) => w == Word && value == v
    case _ => OperandWidth(s.cpu, i, 0) == Ok(w) && exists location :: Locate(s.cpu, i, 0) == Ok(location) && ReadAt(s, location, w) == Ok(value)
  }

  lemma PushesIs(s: MState, i: Instruction, w: Width, value: u32)
    ensures PushOperand(s, i) == Ok((w, value)) <==> Pushes(s, i, w, value)
  {
    hide OperandWidth, Locate, ReadAt, SignExtend, SignExtend8, SignExtend8to16;
    match i.Op(0)
    case Immediate8to32(v) => ExtendedIs(v);
    case Immediate8to16(v) => ExtendedIs(v);
    case Immediate32(_) =>
    case Immediate16(_) =>
    case _ => PushesRead(s, i, w, value);
  }

  lemma ExtendedIs(v: u8)
    ensures SignExtend8(v) == SignExtend(v, Byte) % TWO32 && SignExtend8to16(v) == SignExtend(v, Byte) % 0x1_0000
  {
    hide SignExtend;
    Extended32(v, Dword);
    Extended16(v, Word);
  }

  lemma PushesRead(s: MState, i: Instruction, w: Width, value: u32)
    requires !i.Op(0).Immediate8to32? && !i.Op(0).Immediate8to16? && !i.Op(0).Immediate32? && !i.Op(0).Immediate16?
    ensures PushOperand(s, i) == Ok((w, value)) <==> Pushes(s, i, w, value)
  {
    hide OperandWidth, Locate, ReadAt;
    if PushOperand(s, i) == Ok((w, value)) {
      var location := Locate(s.cpu, i, 0).value;
      assert ReadAt(s, location, w) == Ok(value);
    }
  }

  /** PUSH leaves its operand below the stack and moves ESP there. */
  lemma PushMeans(s: MState, i: Instruction, t: MState) returns (w: Width, value: u32)
    requires i.mnemonic == Push && StepSpec(s, i) == Ok(t)
    ensures Pushes(s, i, w, value) && s.memory.Store((s.cpu.gpr[4] - w.Bytes()) % TWO32, Le(value, w.Bytes())) == Ok(t.memory)
    ensures t == Landed(s, s.cpu.gpr[4 := (s.cpu.gpr[4] - w.Bytes()) % TWO32], t.memory, Next(s, i))
  {
    hide StepSpec, StraightLine, PushOperand, PushValue, Pushes;
    StackDispatch(s, i);
    var u := StraightStep(s, i, t);
    var pushed := PushOperand(s, i).value;
    w, value := pushed.0, pushed.1;
    PushesIs(s, i, w, value);
    PushIs(s, w, value, u);
    LandsNext(s, u, i, t);
  }

  lemma PushIs(s: MState, w: Width, value: u32, u: MState)
    requires PushValue(s, w, value) == Ok(u)
    ensures s.memory.Store((s.cpu.gpr[4] - w.Bytes()) % TWO32, Le(value, w.Bytes())) == Ok(u.memory)
    ensures u == MState(s.cpu.(gpr := s.cpu.gpr[4 := (s.cpu.gpr[4] - w.Bytes()) % TWO32]), u.memory)
  {
    hide Le;
  }

  /** A straight-line step lands on the next instruction. */
  lemma LandsNext(s: MState, u: MState, i: Instruction, t: MState)
    requires t == Retire(JumpTo(u, WrapAdd(u.cpu.eip, i.len))) && u.cpu == s.cpu.(gpr := u.cpu.gpr)
    ensures t == Landed(s, u.cpu.gpr, u.memory, Next(s, i))
  {}

  /** The state with the operand gone from the stack. */
  function Popped(s: MState, w: Width): MState {
    s.(cpu := s.cpu.(gpr := s.cpu.gpr[4 := (s.cpu.gpr[4] + w.Bytes()) % TWO32]))
  }

  /** POP writes the number on top of the stack to its operand, which is found once ESP has moved. */
  lemma PopMeans(s: MState, i: Instruction, w: Width, t: MState) returns (value: u32, dst: Location)
    requires i.mnemonic == Pop && OperandWidth(s.cpu, i, 0) == Ok(w) && StepSpec(s, i) == Ok(t)
    ensures HoldsNumber(s.memory, s.cpu.gpr[4], w, value) && Locate(Popped(s, w).cpu, i, 0) == Ok(dst)
    ensures Moved(Popped(s, w), t, i, dst, w, value)
  {
    hide StepSpec, StraightLine, OperandWidth, LoadWidth, Locate, WriteAt, HoldsNumber;
    StackDispatch(s, i);
    var u := StraightStep(s, i, t);
    value, dst := PopIs(s, i, w, u);
    WriteKeeps(Popped(s, w), dst, w, value);
    PlainFinish(Popped(s, w), u, i, t);
  }

  lemma PopIs(s: MState, i: Instruction, w: Width, u: MState) returns (value: u32, dst: Location)
    requires OperandWidth(s.cpu, i, 0) == Ok(w) && PopSpec(s, i) == Ok(u)
    ensures HoldsNumber(s.memory, s.cpu.gpr[4], w, value) && Locate(Popped(s, w).cpu, i, 0) == Ok(dst)
    ensures WriteAt(Popped(s, w), dst, w, value) == Ok(u)
  {
    hide OperandWidth, LoadWidth, Locate, WriteAt, HoldsNumber;
    value := LoadWidth(s.memory, s.cpu.gpr[4], w).value;
    LoadHolds(s.memory, s.cpu.gpr[4], w, value);
    assert SetReg(s, Esp, WrapAdd(Reg(s, Esp), w.Bytes())) == Popped(s, w);
    dst := Locate(Popped(s, w).cpu, i, 0).value;
  }

  /** PUSH then POP: the pushed number is written, and ESP is back where it was. */
  lemma PushThenPop(s: MState, i: Instruction, t: MState, j: Instruction, w: Width, value: u32, u: MState) returns (dst: Location)
    requires i.mnemonic == Push && Pushes(s, i, w, value) && StepSpec(s, i) == Ok(t)
    requires j.mnemonic == Pop && OperandWidth(t.cpu, j, 0) == Ok(w) && StepSpec(t, j) == Ok(u)
    ensures Locate(s.cpu, j, 0) == Ok(dst) && Moved(Landed(s, s.cpu.gpr, t.memory, t.cpu.eip), u, j, dst, w, value)
  {
    hide StepSpec, Pushes, PushOperand, OperandWidth, Locate, HoldsNumber, Moved, Landed;
    PushesIs(s, i, w, value);
    var v, x := PushMeans(s, i, t);
    PushesIs(s, i, v, x);
    PushFits(s, i, w, value);
    var read;
    read, dst := PopMeans(t, j, w, u);
    UnPushed(s, w, t, i);
    StoredHolds(s.memory, t.cpu.gpr[4], w, value, t.memory, read);
    LocateSame(s.cpu, Popped(t, w).cpu, j, 0);
  }

  lemma UnPushed(s: MState, w: Width, t: MState, i: Instruction)
    requires t == Landed(s, s.cpu.gpr[4 := (s.cpu.gpr[4] - w.Bytes()) % TWO32], t.memory, Next(s, i))
    ensures t.cpu.gpr[4] == (s.cpu.gpr[4] - w.Bytes()) % TWO32
    ensures Popped(t, w) == Landed(s, s.cpu.gpr, t.memory, t.cpu.eip)
    ensures Popped(t, w).cpu.gpr == s.cpu.gpr && Popped(t, w).cpu.segments == s.cpu.segments
  {
    WrapBack(s.cpu.gpr[4], w.Bytes());
    assert Popped(t, w).cpu.gpr == s.cpu.gpr;
  }

  lemma PushFits(s: MState, i: Instruction, w: Width, value: u32)
    requires PushOperand(s, i) == Ok((w, value))
    ensures value < w.Modulus()
  {
  }

  /** Operands are found by registers and segments alone. */
  lemma LocateSame(a: CpuState, b: CpuState, i: Instruction, index: nat)
    requires a.gpr == b.gpr && a.segments == b.segments && Locate(b, i, index).Ok?
    ensures Locate(a, i, index) == Locate(b, i, index)
  {
    hide WrapAdd, RegisterSlot;
  }

  /** A call and its return: execution resumes behind the call, with ESP back where it was and the operand's bytes gone. */
  lemma CallThenReturn(s: MState, i: Instruction, t: MState, j: Instruction, released: nat, u: MState)
    requires i.mnemonic == Call && StepSpec(s, i) == Ok(t) && j.mnemonic == Ret && StepSpec(t, j) == Ok(u)
    requires if j.Op(0).Immediate16? then released == j.Op(0).imm16 else released == 0
    ensures u == Landed(t, s.cpu.gpr[4 := (s.cpu.gpr[4] + released) % TWO32], t.memory, Next(s, i))
  {
    hide StepSpec, HoldsNumber, Goes, Next, Le;
    CallMeans(s, i, t);
    RetMeans(t, j, released, u);
    StoredHolds(s.memory, t.cpu.gpr[4], Dword, Next(s, i), t.memory, u.cpu.eip);
    Released(s.cpu.gpr[4], released);
    assert t.cpu.gpr[4 := (t.cpu.gpr[4] + 4 + released) % TWO32] == s.cpu.gpr[4 := (s.cpu.gpr[4] + released) % TWO32];
  }

  lemma Released(esp: u32, released: nat)
    ensures ((esp - 4) % TWO32 + 4 + released) % TWO32 == (esp + released) % TWO32
  {
    WrapBack(esp, 4);
    WrapSum(WrapSub(esp, 4), 4, released);
  }

  /** LEAVE takes the saved EBP from where EBP points and leaves ESP above it. */
  lemma LeaveMeans(s: MState, i: Instruction, t: MState)
    requires i.mnemonic == Leave && StepSpec(s, i) == Ok(t)
    ensures HoldsNumber(s.memory, s.cpu.gpr[5], Dword, t.cpu.gpr[5])
    ensures t == Landed(s, s.cpu.gpr[4 := (s.cpu.gpr[5] + 4) % TWO32][5 := t.cpu.gpr[5]], s.memory, Next(s, i))
  {
    hide StepSpec, StraightLine, LoadWidth, HoldsNumber;
    StackDispatch(s, i);
    var u := StraightStep(s, i, t);
    LoadHolds(s.memory, s.cpu.gpr[5], Dword, u.cpu.gpr[5]);
    LandsNext(s, u, i, t);
  }

  /** The bytes of eight registers, the last one lowest. */
  function SavedBytes(gpr: RegisterFile): seq<u8> {
    Le32(gpr[7]) + Le32(gpr[6]) + Le32(gpr[5]) + Le32(gpr[4]) + Le32(gpr[3]) + Le32(gpr[2]) + Le32(gpr[1]) + Le32(gpr[0])
  }

  /** PUSHAD leaves all eight registers below the stack, EAX highest, ESP as it was before. */
  lemma PushadMeans(s: MState, i: Instruction, t: MState)
    requires i.mnemonic == Pushad && StepSpec(s, i) == Ok(t)
    ensures s.memory.Store((s.cpu.gpr[4] - 32) % TWO32, SavedBytes(s.cpu.gpr)) == Ok(t.memory)
    ensures t == Landed(s, s.cpu.gpr[4 := (s.cpu.gpr[4] - 32) % TWO32], t.memory, Next(s, i))
  {
    hide StepSpec, StraightLine, SavedBytes, PushadSpec;
    StackDispatch(s, i);
    var u := StraightStep(s, i, t);
    PushadIs(s, u);
    LandsNext(s, u, i, t);
  }

  lemma PushadIs(s: MState, u: MState)
    requires PushadSpec(s) == Ok(u)
    ensures s.memory.Store((s.cpu.gpr[4] - 32) % TWO32, SavedBytes(s.cpu.gpr)) == Ok(u.memory)
    ensures u == MState(s.cpu.(gpr := s.cpu.gpr[4 := (s.cpu.gpr[4] - 32) % TWO32]), u.memory)
  {
    hide PushadFrame, SavedBytes;
    FrameIsSaved(s);
  }

  lemma FrameIsSaved(s: MState)
    ensures PushadFrame(s) == SavedBytes(s.cpu.gpr)
  {
    hide Le32;
  }

  /** PUSHAD then POPAD: every register is as it was. */
  lemma PushadThenPopadSteps(s: MState, i: Instruction, t: MState, j: Instruction, u: MState)
    requires i.mnemonic == Pushad && StepSpec(s, i) == Ok(t) && j.mnemonic == Popad && StepSpec(t, j) == Ok(u)
    ensures u == Landed(t, s.cpu.gpr, t.memory, Next(t, j))
  {
    hide StepSpec, StraightLine, PushadSpec, PopadSpec, Le32;
    StackDispatch(s, i);
    StackDispatch(t, j);
    var saved := StraightStep(s, i, t);
    var back := StraightStep(t, j, u);
    RestoredBy(s, saved, t, back);
    LandsNext(t, back, j, u);
  }

  lemma RestoredBy(s: MState, saved: MState, t: MState, back: MState)
    requires PushadSpec(s) == Ok(saved) && t.memory == saved.memory && t.cpu.gpr == saved.cpu.gpr && PopadSpec(t) == Ok(back)
    ensures back == MState(t.cpu.(gpr := s.cpu.gpr), t.memory)
  {
    hide PushadFrame, FrameWords, RestoredRegisters, WrapSub, WrapAdd;
    FrameHolds(s);
    StillReadable(s.memory, WrapSub(Reg(s, Esp), 32), PushadFrame(s));
    PushadThenPopad(s, saved);
  }
}
