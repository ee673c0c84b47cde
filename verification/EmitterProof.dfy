/**
 The direct emitter is a correct compiler: running the emitted bytes on the host
 has exactly the effect of interpreting the translated guest instructions.
 */
module EmitterProof {
  import opened Words
  import opened Bits
  import opened GuestCpu
  import opened Iced
  import opened RegisterOnly
  import opened HostMachine
  import opened FlagAgreement
  import opened SourceMap
  import opened DirectEmitter

  // --- the CpuState layout ---------------------------------------------------

  /** The bytes the emitted code may touch: the register file, EIP and EFLAGS. */
  const TOUCHED := 40

  function WordAt(memory: seq<u8>, offset: nat): u32
    requires offset + 4 <= |memory|
  {
    FromLe32(memory[offset..offset + 4])
  }

  /** Dwords one after another, each in little-endian bytes. */
  function Dwords(words: seq<u32>): seq<u8> {
    if words == [] then [] else Le32(words[0]) + Dwords(words[1..])
  }

  /** The fields of a guest state the code touches, as they lie in memory: the registers in encoding order, EIP, EFLAGS. */
  function Fields(state: CpuState): seq<u32> { state.gpr + [state.eip, state.eflags] }

  /** The start of a stored CPU state, byte for byte. */
  function Image(state: CpuState): seq<u8> { Dwords(Fields(state)) }

  /** Host memory holds a guest state. */
  ghost predicate Holds(memory: seq<u8>, state: CpuState) {
    |memory| >= TOUCHED && memory[..TOUCHED] == Image(state)
  }

  /** The same, word by word at the displacements the emitter uses. */
  ghost predicate HoldsAt(memory: seq<u8>, state: CpuState) {
    && |memory| >= TOUCHED
    && (forall r: Gpr :: WordAt(memory, GprDisp(r)) == state.Get(r))
    && WordAt(memory, EIP_DISP) == state.eip
    && WordAt(memory, EFLAGS_DISP) == state.eflags
  }

  lemma {:induction false} DwordsAt(words: seq<u32>, k: nat)
    requires k < |words|
    ensures |Dwords(words)| == 4 * |words|
    ensures Dwords(words)[4 * k..4 * k + 4] == Le32(words[k])
  {
    hide Le32;
    DwordsLength(words);
    if k > 0 {
      DwordsAt(words[1..], k - 1);
      assert Dwords(words)[4 * k..4 * k + 4] == Dwords(words[1..])[4 * (k - 1)..4 * (k - 1) + 4];
    }
  }

  lemma {:induction false} DwordsLength(words: seq<u32>)
    ensures |Dwords(words)| == 4 * |words|
  {
    hide Le32;
    if words != [] { DwordsLength(words[1..]); }
  }

  /** Bytes are the dwords read from them. */
  lemma RestSlice(bytes: seq<u8>, at: nat)
    requires at + 8 <= |bytes|
    ensures bytes[4..][at..at + 4] == bytes[at + 4..at + 8]
  {
    var rest := bytes[4..];
    assert forall i :: 0 <= i < |rest| ==> rest[i] == bytes[i + 4];
  }

  lemma {:induction false} DwordsOf(bytes: seq<u8>, words: seq<u32>)
    requires |bytes| == 4 * |words| && forall k :: 0 <= k < |words| ==> FromLe32(bytes[4 * k..4 * k + 4]) == words[k]
    ensures bytes == Dwords(words)
    decreases |words|
  {
    hide Le32, FromLe32;
    if words != [] {
      assert FromLe32(bytes[4 * 0..4 * 0 + 4]) == words[0];
      LeOf(bytes[..4]);
      var rest := bytes[4..];
      forall k | 0 <= k < |words[1..]| ensures FromLe32(rest[4 * k..4 * k + 4]) == words[1..][k] {
        RestSlice(bytes, 4 * k);
        assert 4 * k + 4 == 4 * (k + 1);
      }
      DwordsOf(rest, words[1..]);
      assert bytes == bytes[..4] + rest;
    }
  }

  lemma LeOf(bytes: seq<u8>)
    requires |bytes| == 4
    ensures Le32(FromLe32(bytes)) == bytes
  {
    LeOfFromLe(bytes);
  }

  /** Field `k` of the state lies at byte `4 * k`. */
  lemma FieldAt(memory: seq<u8>, state: CpuState, k: nat)
    requires Holds(memory, state) && k < 10
    ensures WordAt(memory, 4 * k) == Fields(state)[k]
  {
    hide Le32, FromLe32;
    DwordsAt(Fields(state), k);
    SliceOf(memory, TOUCHED, 4 * k, 4 * k + 4);
  }

  lemma SliceOf(bytes: seq<u8>, n: nat, i: nat, j: nat)
    requires i <= j <= n <= |bytes|
    ensures bytes[..n][i..j] == bytes[i..j]
  {}

  /** Register `r`, EIP and EFLAGS are where the emitter's displacements say. */
  lemma DisplacementsRight(r: Gpr)
    ensures GprDisp(r) == 4 * Index(r) && EIP_DISP == 4 * 8 && EFLAGS_DISP == 4 * 9
  {}

  lemma HoldsIs(memory: seq<u8>, state: CpuState)
    ensures Holds(memory, state) <==> HoldsAt(memory, state)
  {
    hide WordAt, Image, Dwords;
    if Holds(memory, state) {
      forall r: Gpr ensures WordAt(memory, GprDisp(r)) == state.Get(r) {
        DisplacementsRight(r);
        FieldAt(memory, state, Index(r));
      }
      FieldAt(memory, state, 8);
      FieldAt(memory, state, 9);
    }
    if HoldsAt(memory, state) { HoldsFrom(memory, state); }
  }

  lemma HoldsFrom(memory: seq<u8>, state: CpuState)
    requires HoldsAt(memory, state)
    ensures Holds(memory, state)
  {
    hide FromLe32, Dwords;
    var bytes, words := memory[..TOUCHED], Fields(state);
    forall k | 0 <= k < |words| ensures FromLe32(bytes[4 * k..4 * k + 4]) == words[k] {
      SliceOf(memory, TOUCHED, 4 * k, 4 * k + 4);
      if k < 8 {
        var r := [Eax, Ecx, Edx, Ebx, Esp, Ebp, Esi, Edi][k];
        assert GprDisp(r) == 4 * k && Index(r) == k;
        assert WordAt(memory, GprDisp(r)) == state.Get(r);
      }
    }
    DwordsOf(bytes, words);
  }

  lemma StoreWord(h: Host, d: u8, v: u32, e: nat)
    requires Addressable(h, d)
    requires e == d || e + 4 <= d || (d + 4 <= e && e + 4 <= |h.memory|)
    ensures |Store32(h, d, v).memory| == |h.memory|
    ensures WordAt(Store32(h, d, v).memory, e) == if e == d then v else WordAt(h.memory, e)
  {
    hide Le32, FromLe32;
    var m := Store32(h, d, v).memory;
    if e == d {
      assert m[e..e + 4] == Le32(v);
    } else {
      assert m[e..e + 4] == h.memory[e..e + 4];
    }
  }

  lemma StoreRest(h: Host, d: u8, v: u32)
    requires Addressable(h, d) && d + 4 <= TOUCHED <= |h.memory|
    ensures Store32(h, d, v).memory[TOUCHED..] == h.memory[TOUCHED..]
  {
    hide Le32, FromLe32;
  }

  /** A store into the guest words leaves the rest of the state and the stack alone. */
  ghost predicate Stored(h: Host, after: Host) {
    && |after.memory| == |h.memory| >= TOUCHED
    && after.memory[TOUCHED..] == h.memory[TOUCHED..]
    && after.stack == h.stack
  }

  lemma DispApart(r: Gpr, q: Gpr)
    requires r != q
    ensures GprDisp(r) + 4 <= GprDisp(q) || GprDisp(q) + 4 <= GprDisp(r)
    ensures Index(r) != Index(q)
  {}

  lemma StoreGprAt(h: Host, state: CpuState, r: Gpr, v: u32)
    requires HoldsAt(h.memory, state)
    ensures Addressable(h, GprDisp(r))
    ensures HoldsAt(Store32(h, GprDisp(r), v).memory, state.Set(r, v))
    ensures Stored(h, Store32(h, GprDisp(r), v))
  {
    var d := GprDisp(r);
    assert Store32(h, d, v).stack == h.stack;
    hide WordAt, Store32;
    StoreRest(h, d, v);
    StoreWord(h, d, v, EIP_DISP);
    StoreWord(h, d, v, EFLAGS_DISP);
    forall q: Gpr ensures WordAt(Store32(h, d, v).memory, GprDisp(q)) == state.Set(r, v).Get(q) {
      if q != r { DispApart(r, q); }
      StoreWord(h, d, v, GprDisp(q));
    }
  }

  lemma StoreControlAt(h: Host, state: CpuState, v: u32)
    requires HoldsAt(h.memory, state)
    ensures HoldsAt(Store32(h, EFLAGS_DISP, v).memory, state.(eflags := v))
    ensures HoldsAt(Store32(h, EIP_DISP, v).memory, state.(eip := v))
    ensures Stored(h, Store32(h, EFLAGS_DISP, v))
    ensures Stored(h, Store32(h, EIP_DISP, v))
  {
    assert Store32(h, EFLAGS_DISP, v).stack == h.stack;
    assert Store32(h, EIP_DISP, v).stack == h.stack;
    hide WordAt, Store32;
    StoreRest(h, EFLAGS_DISP, v);
    StoreRest(h, EIP_DISP, v);
    StoreWord(h, EFLAGS_DISP, v, EFLAGS_DISP);
    StoreWord(h, EFLAGS_DISP, v, EIP_DISP);
    StoreWord(h, EIP_DISP, v, EFLAGS_DISP);
    StoreWord(h, EIP_DISP, v, EIP_DISP);
    forall q: Gpr
      ensures WordAt(Store32(h, EFLAGS_DISP, v).memory, GprDisp(q)) == state.Get(q)
      ensures WordAt(Store32(h, EIP_DISP, v).memory, GprDisp(q)) == state.Get(q)
    {
      StoreWord(h, EFLAGS_DISP, v, GprDisp(q));
      StoreWord(h, EIP_DISP, v, GprDisp(q));
    }
  }

  lemma StoreGpr(h: Host, state: CpuState, r: Gpr, v: u32)
    requires Holds(h.memory, state)
    ensures Addressable(h, GprDisp(r))
    ensures Holds(Store32(h, GprDisp(r), v).memory, state.Set(r, v))
    ensures Stored(h, Store32(h, GprDisp(r), v))
  {
    hide Holds, HoldsAt, Store32;
    HoldsIs(h.memory, state);
    StoreGprAt(h, state, r, v);
    HoldsIs(Store32(h, GprDisp(r), v).memory, state.Set(r, v));
  }

  lemma StoreControl(h: Host, state: CpuState, v: u32)
    requires Holds(h.memory, state)
    ensures Holds(Store32(h, EFLAGS_DISP, v).memory, state.(eflags := v))
    ensures Holds(Store32(h, EIP_DISP, v).memory, state.(eip := v))
    ensures Stored(h, Store32(h, EFLAGS_DISP, v))
    ensures Stored(h, Store32(h, EIP_DISP, v))
  {
    HoldsSize(h.memory, state);
    hide Holds, HoldsAt, Store32;
    HoldsIs(h.memory, state);
    StoreControlAt(h, state, v);
    HoldsIs(Store32(h, EFLAGS_DISP, v).memory, state.(eflags := v));
    HoldsIs(Store32(h, EIP_DISP, v).memory, state.(eip := v));
  }

  // --- decoding what was encoded ----------------------------------------------

  /** The register named by a ModRM field. */
  lemma FieldOfReg(reg: HostReg)
    ensures RegOfField(RegCode(reg)) == Some(reg)
    ensures 0 <= RegCode(reg) < 3
  {}

  lemma ModRmFields(mode: nat, reg: nat, rm: nat)
    requires mode < 4 && reg < 8 && rm < 8
    ensures 64 * mode + 8 * reg + rm < 256
    ensures var m := 64 * mode + 8 * reg + rm; ModField(m) == mode && RegField(m) == reg && RmField(m) == rm
  {}

  lemma OpcodeOfAlu(op: HostAlu)
    ensures AluOfOpcode(OpcodeOf(op)) == Some(op) && AluOfGroup(GroupCode(op)) == Some(op)
    ensures OpcodeOf(op) < 0x58 && OpcodeOf(op) != 0x25 && GroupCode(op) < 8
  {}

  lemma DecodeMemory(instr: HostInstr, rest: seq<u8>)
    requires instr.HLoad? || instr.HStore? || instr.HStoreImm?
    ensures Decode(Encode(instr) + rest) == Decoded(instr, |Encode(instr)|)
  {
    hide Le32, FromLe32, RegOfField, ModField, RegField, RmField;
    var code := Encode(instr) + rest;
    match instr
    case HLoad(reg, disp) => FieldOfReg(reg); ModRmFields(1, RegCode(reg), 1);
    case HStore(reg, disp) => FieldOfReg(reg); ModRmFields(1, RegCode(reg), 1);
    case HStoreImm(disp, imm) => ModRmFields(1, 0, 1); assert code[3..7] == Le32(imm);
  }

  lemma DecodeAlu(instr: HostInstr, rest: seq<u8>)
    requires instr.HAluReg? || instr.HAluImm? || instr.HAndEax?
    ensures Decode(Encode(instr) + rest) == Decoded(instr, |Encode(instr)|)
  {
    hide Le32, FromLe32, RegOfField, ModField, RegField, RmField, OpcodeOf, GroupCode, AluOfOpcode, AluOfGroup, RegCode;
    var code := Encode(instr) + rest;
    match instr
    case HAluReg(op, dst, src) =>
      FieldOfReg(dst);
      FieldOfReg(src);
      OpcodeOfAlu(op);
      ModRmFields(3, RegCode(src), RegCode(dst));
      assert code[0] == OpcodeOf(op) && code[1] == 64 * 3 + 8 * RegCode(src) + RegCode(dst);
    case HAluImm(op, dst, imm) =>
      OpcodeOfAlu(op);
      FieldOfReg(dst);
      ModRmFields(3, GroupCode(op), RegCode(dst));
      assert code[2..6] == Le32(imm);
    case HAndEax(imm) => assert code[1..5] == Le32(imm);
  }

  lemma DecodeOther(instr: HostInstr, rest: seq<u8>)
    requires instr.HNop? || instr.HMovImm? || instr.HPushfq? || instr.HPop? || instr.HRet?
    ensures Decode(Encode(instr) + rest) == Decoded(instr, |Encode(instr)|)
  {
    hide Le32, FromLe32, DecodeModRm;
    var code := Encode(instr) + rest;
    match instr
    case HMovImm(reg, imm) => assert code[1..5] == Le32(imm);
    case _ =>
  }

  /** The host decoder reads back exactly what the encoder wrote. */
  lemma DecodeEncode(instr: HostInstr, rest: seq<u8>)
    ensures Decode(Encode(instr) + rest) == Decoded(instr, |Encode(instr)|)
    ensures (Encode(instr) + rest)[|Encode(instr)|..] == rest
  {
    hide Decode, Encode;
    if instr.HLoad? || instr.HStore? || instr.HStoreImm? {
      DecodeMemory(instr, rest);
    } else if instr.HAluReg? || instr.HAluImm? || instr.HAndEax? {
      DecodeAlu(instr, rest);
    } else {
      DecodeOther(instr, rest);
    }
  }

  // --- runs of host instructions ------------------------------------------------

  function ExecAll(code: seq<HostInstr>, h: Host): Option<Host> {
    if code == [] then Some(h)
    else if code[0].HRet? then None
    else match Exec(code[0], h)
      case None => None
      case Some(next) => ExecAll(code[1..], next)
  }

  lemma {:induction false} ExecAppend(a: seq<HostInstr>, b: seq<HostInstr>, h: Host)
    requires ExecAll(a, h).Some?
    ensures ExecAll(a + b, h) == ExecAll(b, ExecAll(a, h).value)
  {
    hide Exec;
    if a == [] {
      assert a + b == b;
    } else {
      ExecAppend(a[1..], b, Exec(a[0], h).value);
      assert (a + b)[1..] == a[1..] + b;
    }
  }

  lemma EncodeHead(code: seq<HostInstr>)
    requires code != []
    ensures EncodeAll(code) == Encode(code[0]) + EncodeAll(code[1..])
  {
    hide Encode;
    assert code == [code[0]] + code[1..];
    FlatMapAppend(Encode, [code[0]], code[1..]);
    EncodeOne(code[0]);
  }

  /** Running encoded instructions executes them in order, then whatever follows. */
  lemma {:induction false} RunEncoded(code: seq<HostInstr>, rest: seq<u8>, h: Host)
    requires ExecAll(code, h).Some?
    ensures Run(EncodeAll(code) + rest, h) == Run(rest, ExecAll(code, h).value)
  {
    hide Exec, Encode, Decode;
    if code == [] {
      assert EncodeAll(code) + rest == rest;
    } else {
      EncodeHead(code);
      var tail := EncodeAll(code[1..]) + rest;
      assert EncodeAll(code) + rest == Encode(code[0]) + tail;
      DecodeEncode(code[0], tail);
      RunEncoded(code[1..], rest, Exec(code[0], h).value);
    }
  }

  // --- one operation -------------------------------------------------------------

  lemma LoadGpr(h: Host, state: CpuState, r: Gpr)
    requires Holds(h.memory, state)
    ensures Addressable(h, GprDisp(r)) && Load32(h, GprDisp(r)) == state.Get(r)
  {
    HoldsIs(h.memory, state);
    hide Holds;
    assert WordAt(h.memory, GprDisp(r)) == state.Get(r);
  }

  lemma ExecOne(a: HostInstr, h: Host)
    requires !a.HRet?
    ensures ExecAll([a], h) == Exec(a, h)
  {
    hide Exec;
    assert [a][1..] == [];
  }

  lemma ExecTwo(a: HostInstr, b: HostInstr, h: Host)
    requires !a.HRet? && !b.HRet? && Exec(a, h).Some?
    ensures ExecAll([a, b], h) == Exec(b, Exec(a, h).value)
  {
    hide Exec;
    assert [a, b][1..] == [b];
    ExecOne(b, Exec(a, h).value);
  }

  lemma StepOperand(h: Host, state: CpuState, src: RegisterOperand) returns (after: Host)
    requires Holds(h.memory, state)
    ensures Exec(LowerLoad(src), h) == Some(after)
    ensures after.memory == h.memory && after.stack == h.stack
    ensures after.Reg32(Rax) == ReadOperand(state, src)
  {
    match src
    case FromGpr(source) =>
      hide Exec, Holds;
      after := StepLoad(h, state, Rax, source);
    case Immediate(value) =>
      hide Holds, Load32, Store32, ExecAlu;
      after := Exec(HMovImm(Rax, value), h).value;
  }

  lemma StoredBefore(h: Host, next: Host, after: Host)
    requires next.memory == h.memory && next.stack == h.stack && Stored(next, after)
    ensures Stored(h, after)
  {}

  lemma StepStore(h: Host, state: CpuState, r: Gpr) returns (after: Host)
    requires Holds(h.memory, state)
    ensures Exec(HStore(Rax, GprDisp(r)), h) == Some(after)
    ensures Holds(after.memory, state.Set(r, h.Reg32(Rax))) && Stored(h, after)
  {
    hide Store32, Load32, ExecAlu, Holds, Stored;
    var next := h.(retired := h.retired + 1);
    StoreGpr(next, state, r, h.Reg32(Rax));
    StoredBefore(h, next, Store32(next, GprDisp(r), h.Reg32(Rax)));
    after := Exec(HStore(Rax, GprDisp(r)), h).value;
  }

  lemma SimulateMov(h: Host, state: CpuState, dst: Gpr, src: RegisterOperand)
    requires Holds(h.memory, state)
    ensures ExecAll(Lower(RegMov(dst, src)), h).Some?
    ensures Holds(ExecAll(Lower(RegMov(dst, src)), h).value.memory, Apply(state, RegMov(dst, src)))
    ensures Stored(h, ExecAll(Lower(RegMov(dst, src)), h).value)
  {
    hide Holds;
    var loaded := StepOperand(h, state, src);
    var after := StepStore(loaded, state, dst);
    hide Exec;
    ExecTwo(LowerLoad(src), HStore(Rax, GprDisp(dst)), h);
  }

  /** Where the ALU code leaves the host: the result in EAX, the flags in RFLAGS. */
  ghost predicate Computed(h: Host, after: Host, op: AluOp, a: u32, b: u32, undefined: bool) {
    && after.memory == h.memory
    && after.stack == h.stack
    && after.Reg32(Rax) == AluResult(op, a, b)
    && after.rflags == AluRflags(h.rflags, HostStatus(HostOf(op), a, b, undefined))
  }

  lemma StepLoad(h: Host, state: CpuState, reg: HostReg, r: Gpr) returns (after: Host)
    requires Holds(h.memory, state)
    ensures Exec(HLoad(reg, GprDisp(r)), h) == Some(after)
    ensures after.memory == h.memory && after.stack == h.stack && after.rflags == h.rflags
    ensures after.Reg32(reg) == state.Get(r)
    ensures forall other :: other != reg ==> after.Reg32(other) == h.Reg32(other)
  {
    LoadGpr(h, state, r);
    hide Load32, Holds, FromLe32;
    after := Exec(HLoad(reg, GprDisp(r)), h).value;
  }

  lemma StepAlu(h: Host, op: AluOp, a: u32, b: u32, instr: HostInstr) returns (after: Host, undefined: bool)
    requires h.Reg32(Rax) == a
    requires instr == HAluImm(HostOf(op), Rax, b) || (instr == HAluReg(HostOf(op), Rax, Rdx) && h.Reg32(Rdx) == b)
    ensures Exec(instr, h) == Some(after)
    ensures Computed(h, after, op, a, b, undefined)
  {
    undefined := h.undefinedAux(h.retired);
    StatusAgrees(op, a, b, undefined);
    ExecAluEffect(h, HostOf(op), Rax, b);
    ExecIsAlu(h, HostOf(op), b, instr);
    hide Exec, ExecAlu, AluRflags, HostStatus, AluValue, AluResult, HostOf;
    after := ExecAlu(h, HostOf(op), Rax, b).(retired := h.retired + 1);
  }

  lemma ExecIsAlu(h: Host, op: HostAlu, b: u32, instr: HostInstr)
    requires instr == HAluImm(op, Rax, b) || (instr == HAluReg(op, Rax, Rdx) && h.Reg32(Rdx) == b)
    ensures Exec(instr, h) == Some(ExecAlu(h, op, Rax, b).(retired := h.retired + 1))
  {
    hide ExecAlu, Load32, Store32;
  }

  lemma ExecAluEffect(h: Host, op: HostAlu, reg: HostReg, b: u32)
    ensures var after := ExecAlu(h, op, reg, b);
            && after.memory == h.memory && after.stack == h.stack
            && after.Reg32(reg) == AluValue(op, h.Reg32(reg), b)
            && after.rflags == AluRflags(h.rflags, HostStatus(op, h.Reg32(reg), b, h.undefinedAux(h.retired)))
            && (forall other :: other != reg ==> after.Reg32(other) == h.Reg32(other))
  {
    hide AluRflags, HostStatus, AluValue;
  }

  lemma SimulateCompute(h: Host, state: CpuState, op: AluOp, dst: Gpr, src: RegisterOperand)
    returns (after: Host, undefined: bool)
    requires Holds(h.memory, state)
    ensures ExecAll(LowerAlu(op, dst, src), h) == Some(after)
    ensures Computed(h, after, op, state.Get(dst), ReadOperand(state, src), undefined)
  {
    hide Holds, Exec, AluRflags, HostStatus, AluResult;
    var a, b := state.Get(dst), ReadOperand(state, src);
    var h1 := StepLoad(h, state, Rax, dst);
    match src
    case FromGpr(source) =>
      var h2 := StepLoad(h1, state, Rdx, source);
      var x, y, z := HLoad(Rax, GprDisp(dst)), HLoad(Rdx, GprDisp(source)), HAluReg(HostOf(op), Rax, Rdx);
      after, undefined := StepAlu(h2, op, a, b, z);
      assert [x, y, z][1..] == [y, z];
      ExecTwo(y, z, h1);
    case Immediate(value) =>
      after, undefined := StepAlu(h1, op, a, b, HAluImm(HostOf(op), Rax, value));
      ExecTwo(HLoad(Rax, GprDisp(dst)), HAluImm(HostOf(op), Rax, value), h);
  }

  lemma PushStep(h: Host) returns (after: Host)
    ensures Exec(HPushfq, h) == Some(after)
    ensures after.memory == h.memory && after.stack == [PushedFlags(h.rflags)] + h.stack
    ensures after.Reg32(Rax) == h.Reg32(Rax)
  {
    hide PushedFlags, ExecAlu, Load32, Store32;
    after := Exec(HPushfq, h).value;
  }

  lemma SimulateCapture(h: Host, state: CpuState, dst: Gpr) returns (after: Host)
    requires Holds(h.memory, state)
    ensures ExecAll([HPushfq, HStore(Rax, GprDisp(dst))], h) == Some(after)
    ensures Holds(after.memory, state.Set(dst, h.Reg32(Rax)))
    ensures |after.memory| == |h.memory| && after.memory[TOUCHED..] == h.memory[TOUCHED..]
    ensures after.stack == [PushedFlags(h.rflags)] + h.stack
  {
    hide Exec, Holds, PushedFlags;
    var h1 := PushStep(h);
    after := StepStore(h1, state, dst);
    ExecTwo(HPushfq, HStore(Rax, GprDisp(dst)), h);
  }

  lemma SimulateMerge(h: Host, state: CpuState, mask: u32, pushed: u32) returns (after: Host)
    requires Holds(h.memory, state)
    requires |h.stack| > 0 && h.stack[0] == pushed
    ensures ExecAll(LowerMerge(mask), h) == Some(after)
    ensures Holds(after.memory, state.(eflags := MergeFlags(state.eflags, mask, pushed)))
    ensures |after.memory| == |h.memory| && after.memory[TOUCHED..] == h.memory[TOUCHED..]
    ensures after.stack == h.stack[1..]
  {
    hide Exec, Holds, BitAnd, BitOr, ExecAll;
    var h1 := PopStep(h);
    var h2 := StepMask(h1, HAluImm(HostAnd, Rdx, mask), Rdx, mask);
    var h3 := StepLoadFlags(h2, state);
    var h4 := StepMask(h3, HAndEax(BitNot(mask)), Rax, BitNot(mask));
    var h5 := StepOr(h4);
    after := StepStoreFlags(h5, state);
    var code := LowerMerge(mask);
    ExecSix(code, h, h1, h2, h3, h4, h5, after);
  }

  lemma ExecSix(code: seq<HostInstr>, h: Host, h1: Host, h2: Host, h3: Host, h4: Host, h5: Host, h6: Host)
    requires |code| == 6 && forall i :: 0 <= i < 6 ==> !code[i].HRet?
    requires Exec(code[0], h) == Some(h1) && Exec(code[1], h1) == Some(h2) && Exec(code[2], h2) == Some(h3)
    requires Exec(code[3], h3) == Some(h4) && Exec(code[4], h4) == Some(h5) && Exec(code[5], h5) == Some(h6)
    ensures ExecAll(code, h) == Some(h6)
  {
    hide Exec;
    ExecTwo(code[0], code[1], h);
    ExecTwo(code[2], code[3], h2);
    ExecTwo(code[4], code[5], h4);
    ExecAppend([code[0], code[1]], [code[2], code[3]], h);
    ExecAppend([code[0], code[1]] + [code[2], code[3]], [code[4], code[5]], h);
    assert code == [code[0], code[1]] + [code[2], code[3]] + [code[4], code[5]];
  }

  lemma PopStep(h: Host) returns (after: Host)
    requires |h.stack| > 0
    ensures Exec(HPop(Rdx), h) == Some(after)
    ensures after.memory == h.memory && after.stack == h.stack[1..]
    ensures after.Reg32(Rdx) == h.stack[0] % TWO32
  {
    after := Exec(HPop(Rdx), h).value;
  }

  lemma StepMask(h: Host, instr: HostInstr, reg: HostReg, mask: u32) returns (after: Host)
    requires instr == HAluImm(HostAnd, reg, mask) || (instr == HAndEax(mask) && reg == Rax)
    ensures Exec(instr, h) == Some(after)
    ensures after.memory == h.memory && after.stack == h.stack
    ensures after.Reg32(reg) == BitAnd(h.Reg32(reg), mask)
    ensures forall other :: other != reg ==> after.Reg32(other) == h.Reg32(other)
  {
    ExecAluEffect(h, HostAnd, reg, mask);
    hide ExecAlu, BitAnd, Load32, Store32;
    after := Exec(instr, h).value;
    assert after == ExecAlu(h, HostAnd, reg, mask).(retired := h.retired + 1);
  }

  lemma StepLoadFlags(h: Host, state: CpuState) returns (after: Host)
    requires Holds(h.memory, state)
    ensures Exec(HLoad(Rax, EFLAGS_DISP), h) == Some(after)
    ensures after.memory == h.memory && after.stack == h.stack
    ensures after.Reg32(Rax) == state.eflags && after.Reg32(Rdx) == h.Reg32(Rdx)
  {
    HoldsIs(h.memory, state);
    assert Load32(h, EFLAGS_DISP) == state.eflags;
    hide Load32, Holds;
    after := Exec(HLoad(Rax, EFLAGS_DISP), h).value;
  }

  lemma StepOr(h: Host) returns (after: Host)
    ensures Exec(HAluReg(HostOr, Rax, Rdx), h) == Some(after)
    ensures after.memory == h.memory && after.stack == h.stack
    ensures after.Reg32(Rax) == BitOr(h.Reg32(Rax), h.Reg32(Rdx))
  {
    ExecAluEffect(h, HostOr, Rax, h.Reg32(Rdx));
    hide ExecAlu, BitOr, Load32, Store32;
    after := Exec(HAluReg(HostOr, Rax, Rdx), h).value;
  }

  lemma StepStoreFlags(h: Host, state: CpuState) returns (after: Host)
    requires Holds(h.memory, state)
    ensures Exec(HStore(Rax, EFLAGS_DISP), h) == Some(after)
    ensures Holds(after.memory, state.(eflags := h.Reg32(Rax))) && Stored(h, after)
  {
    var next := h.(retired := h.retired + 1);
    StoreControl(next, state, h.Reg32(Rax));
    HoldsSize(h.memory, state);
    hide Store32, Holds;
    after := Exec(HStore(Rax, EFLAGS_DISP), h).value;
  }

  lemma SimulateAlu(h: Host, state: CpuState, op: AluOp, dst: Gpr, src: RegisterOperand)
    requires Holds(h.memory, state)
    ensures ExecAll(Lower(RegAlu(op, dst, src)), h).Some?
    ensures Holds(ExecAll(Lower(RegAlu(op, dst, src)), h).value.memory, Apply(state, RegAlu(op, dst, src)))
    ensures Stored(h, ExecAll(Lower(RegAlu(op, dst, src)), h).value)
  {
    hide LowerAlu, LowerMerge, Holds, AluRflags, HostStatus, MergeFlags, AluStatus, FlagWord, AluResult, PushedFlags, ExecAll;
    var a, b := state.Get(dst), ReadOperand(state, src);
    var h1, undefined := SimulateCompute(h, state, op, dst, src);
    var h2 := SimulateCapture(h1, state, dst);
    var pushed: u32 := PushedFlags(h1.rflags) by { PushedIsWord(h1.rflags); }
    var h3 := SimulateMerge(h2, state.Set(dst, h1.Reg32(Rax)), DefinedFlags(op), pushed);
    MergeAgrees(state.eflags, h.rflags, op, a, b, undefined);
    var capture := [HPushfq, HStore(Rax, GprDisp(dst))];
    ExecAppend(LowerAlu(op, dst, src), capture, h);
    ExecAppend(LowerAlu(op, dst, src) + capture, LowerMerge(DefinedFlags(op)), h);
    assert Lower(RegAlu(op, dst, src)) == LowerAlu(op, dst, src) + capture + LowerMerge(DefinedFlags(op));
    assert h3.stack == h.stack;
    assert |h.memory| >= TOUCHED by { HoldsSize(h.memory, state); }
  }

  lemma HoldsSize(memory: seq<u8>, state: CpuState)
    requires Holds(memory, state)
    ensures |memory| >= TOUCHED
  {}

  lemma PushedIsWord(rflags: u32)
    ensures PushedFlags(rflags) < TWO32
  {}

  /** The code of one operation has exactly the operation's effect. */
  lemma SimulateOp(h: Host, state: CpuState, op: RegisterOp)
    requires Holds(h.memory, state)
    ensures ExecAll(Lower(op), h).Some?
    ensures Holds(ExecAll(Lower(op), h).value.memory, Apply(state, op))
    ensures Stored(h, ExecAll(Lower(op), h).value)
  {
    hide Holds;
    match op
    case RegNop => ExecOne(HNop, h); HoldsSize(h.memory, state);
    case RegMov(dst, src) => SimulateMov(h, state, dst, src); hide *;
    case RegAlu(alu, dst, src) => SimulateAlu(h, state, alu, dst, src); hide *;
  }

  // --- whole blocks -----------------------------------------------------------------

  /** Interpreting instructions one after another. */
  function StepAll(state: CpuState, instructions: seq<Instruction>): Option<CpuState> {
    if instructions == [] then Some(state) else
    match StepAll(state, instructions[..|instructions| - 1])
    case None => None
    case Some(before) => StepRegisterOnly(before, instructions[|instructions| - 1])
  }

  function ApplyAll(state: CpuState, ops: seq<RegisterOp>): CpuState {
    if ops == [] then state else Apply(ApplyAll(state, ops[..|ops| - 1]), ops[|ops| - 1])
  }

  lemma ApplyKeepsEip(state: CpuState, op: RegisterOp, eip: u32)
    ensures Apply(state.(eip := eip), op) == Apply(state, op).(eip := eip)
    ensures Apply(state, op).eip == state.eip
  {
    hide MergeFlags, FlagWord, AluStatus, AluResult;
  }

  lemma {:induction false} StepAllIsApplyAll(state: CpuState, instructions: seq<Instruction>)
    requires AllClassified(instructions)
    ensures StepAll(state, instructions) ==
            Some(ApplyAll(state, Ops(instructions)).(eip := WrapAdd(state.eip, LengthOf(instructions))))
  {
    hide Apply, Classify;
    if instructions != [] {
      var init, last := instructions[..|instructions| - 1], instructions[|instructions| - 1];
      StepAllIsApplyAll(state, init);
      assert Ops(instructions)[..|init|] == Ops(init);
      ApplyKeepsEip(ApplyAll(state, Ops(init)), Classify(last).value, WrapAdd(state.eip, LengthOf(init)));
      WrapSum(state.eip, LengthOf(init), last.len);
    }
  }

  lemma {:induction false} SimulateAll(h: Host, state: CpuState, ops: seq<RegisterOp>) returns (after: Host)
    requires Holds(h.memory, state)
    ensures ExecAll(LowerAll(ops), h) == Some(after)
    ensures Holds(after.memory, ApplyAll(state, ops)) && Stored(h, after)
  {
    hide Holds, Lower, Apply, ExecAll;
    HoldsSize(h.memory, state);
    if ops == [] {
      after := h;
      assert ExecAll([], h) == Some(h) by { ExecNone(h); }
    } else {
      var init, last := ops[..|ops| - 1], ops[|ops| - 1];
      var before := SimulateAll(h, state, init);
      SimulateOp(before, ApplyAll(state, init), last);
      ExecAppend(LowerAll(init), Lower(last), h);
      after := ExecAll(Lower(last), before).value;
    }
  }

  lemma ExecNone(h: Host)
    ensures ExecAll([], h) == Some(h)
  {}

  lemma StepExit(h: Host, state: CpuState, exitEip: u32, raw: u32) returns (after: Host)
    requires Holds(h.memory, state)
    ensures ExecAll([HStoreImm(EIP_DISP, exitEip), HMovImm(Rax, raw)], h) == Some(after)
    ensures Holds(after.memory, state.(eip := exitEip)) && Stored(h, after)
    ensures after.rax == raw
  {
    HoldsSize(h.memory, state);
    StoreControl(h.(retired := h.retired + 1), state, exitEip);
    hide Store32, Holds, ExecAlu, Load32;
    var h1 := Exec(HStoreImm(EIP_DISP, exitEip), h).value;
    after := Exec(HMovImm(Rax, raw), h1).value;
    ExecTwo(HStoreImm(EIP_DISP, exitEip), HMovImm(Rax, raw), h);
  }

  /** The epilogue stores the exit EIP, loads the exit code and returns. */
  lemma RunEpilogue(h: Host, state: CpuState, exitEip: u32, exit: BlockExit)
    requires Holds(h.memory, state) && |h.stack| > 0
    ensures var out := Run(EncodeAll(LowerEpilogue(exitEip, exit)), h);
            && out.Returned? && out.returnAddress == h.stack[0]
            && Holds(out.host.memory, state.(eip := exitEip))
            && |out.host.memory| == |h.memory| && out.host.memory[TOUCHED..] == h.memory[TOUCHED..]
            && out.host.stack == h.stack[1..]
            && out.host.rax == ToRaw(exit)
  {
    hide Holds, Encode, ToRaw, Exec, Run;
    var store, load := HStoreImm(EIP_DISP, exitEip), HMovImm(Rax, ToRaw(exit));
    var h2 := StepExit(h, state, exitEip, ToRaw(exit));
    assert LowerEpilogue(exitEip, exit) == [store, load] + [HRet];
    FlatMapAppend(Encode, [store, load], [HRet]);
    EncodeOne(HRet);
    RunEncoded([store, load], Encode(HRet), h);
    RunRet(h2);
  }

  lemma RunRet(h: Host)
    requires |h.stack| > 0
    ensures Run(Encode(HRet), h) == Returned(h.(stack := h.stack[1..]), h.stack[0])
  {
    hide Decode;
    DecodeEncode(HRet, []);
    assert Encode(HRet) + [] == Encode(HRet);
  }

  lemma RawRoundTrip(exit: BlockExit)
    ensures FromRaw(ToRaw(exit)) == Some(exit)
  {}

  lemma {:induction false} LengthMonotonic(instructions: seq<Instruction>, n: nat)
    requires n <= |instructions|
    ensures LengthOf(instructions[..n]) <= LengthOf(instructions)
  {
    if n == |instructions| {
      assert instructions[..n] == instructions;
    } else {
      var init := instructions[..|instructions| - 1];
      LengthMonotonic(init, n);
      assert init[..n] == instructions[..n];
    }
  }

  /** The exit EIP is the address after the translated prefix. */
  lemma ExitIsNext(block: DecodedBlock, e: EmittedBlock)
    requires block.Contiguous() && Compiled(block, e)
    ensures e.exitEip == block.start + LengthOf(block.instructions[..e.translated])
  {
    hide Classify, EncodeAll, LowerAll, LengthOf, LowerEpilogue, RangesOf;
    var n := e.translated;
    LengthMonotonic(block.instructions, n);
    if n == |block.instructions| { assert block.instructions[..n] == block.instructions; }
  }

  /**
   Compiler correctness. Entered with any guest state whose EIP is the block
   start, the emitted bytes return to their caller with the registers, flags and
   EIP that interpreting the translated prefix gives, every other byte of the
   CPU state and the host stack as they were, and the exit the block reports:
   the successor when everything translated, else the first untranslated
   instruction.
   */
  lemma CompilerCorrect(block: DecodedBlock, e: EmittedBlock, state: CpuState, h: Host)
    requires block.Contiguous() && Compiled(block, e)
    requires state.eip == block.start && Holds(h.memory, state) && |h.stack| > 0
    ensures var out := Run(e.bytes, h);
            var final := StepAll(state, block.instructions[..e.translated]);
            && final.Some? && out.Returned?
            && Holds(out.host.memory, final.value)
            && |out.host.memory| == |h.memory| && out.host.memory[TOUCHED..] == h.memory[TOUCHED..]
            && out.host.stack == h.stack[1..] && out.returnAddress == h.stack[0]
            && final.value.eip == e.exitEip
            && FromRaw(out.host.rax) == Some(e.staticExit)
            && (e.staticExit == DirectSuccessor <==> e.translated == |block.instructions|)
            && (e.translated < |block.instructions| ==>
                  StepRegisterOnly(final.value, block.instructions[e.translated]).None?)
  {
    hide Classify, Holds, Run, Lower, LowerEpilogue, Apply, EncodeAll, LowerAll, RangesOf, ExecAll, ToRaw, FromRaw, LengthOf, StepAll, ApplyAll, Ops;
    var translated := block.instructions[..e.translated];
    assert AllClassified(translated);
    var ops := Ops(translated);
    StepAllIsApplyAll(state, translated);
    var after := SimulateAll(h, state, ops);
    RunEncoded(LowerAll(ops), EncodeAll(LowerEpilogue(e.exitEip, e.staticExit)), h);
    RunEpilogue(after, ApplyAll(state, ops), e.exitEip, e.staticExit);
    RawRoundTrip(e.staticExit);
    ExitIsNext(block, e);
  }

  // --- the source map -----------------------------------------------------------------

  lemma Apart(ranges: seq<SourceRange>, i: nat, j: nat)
    requires RangesAcceptable(ranges) && i < |ranges| && j < |ranges| && i != j
    ensures Disjoint(ranges[i], ranges[j])
  {
    assert Disjoint(ranges[if i < j then i else j], ranges[if i < j then j else i]);
  }

  /**
   Every host byte of translated instruction `i` belongs to exactly one source
   range, which names that instruction; no range reaches into the epilogue.
   */
  lemma SourceMapTracks(block: DecodedBlock, e: EmittedBlock, i: nat, offset: nat)
    requires block.Contiguous() && Compiled(block, e) && i < e.translated
    requires var ops := Ops(block.instructions[..e.translated]); HostStart(ops, i) <= offset < HostStart(ops, i + 1)
    ensures forall range :: range in e.sourceMap.ranges && range.Contains(offset) ==>
              range.guestIp == block.start + LengthOf(block.instructions[..i]) && range.guestLen == block.instructions[i].len
    ensures exists range :: range in e.sourceMap.ranges && range.Contains(offset)
  {
    hide Classify, HostStart, EncodeAll, LowerAll, LowerEpilogue, LengthOf, Ops, RangesAcceptable;
    var translated := block.instructions[..e.translated];
    var ranges := RangesOf(translated);
    assert LengthOf(block.instructions[..i]) <= block.byteLen by { LengthMonotonic(block.instructions, i); }
    RangesAccepted(translated);
    OnlyRange(ranges, e.sourceMap.ranges, i, offset);
  }

  lemma OnlyRange(ranges: seq<SourceRange>, stored: seq<SourceRange>, i: nat, offset: nat)
    requires multiset(stored) == multiset(ranges) && RangesAcceptable(ranges) && i < |ranges| && ranges[i].Contains(offset)
    ensures ranges[i] in stored && forall range :: range in stored && range.Contains(offset) ==> range == ranges[i]
  {
    hide RangesAcceptable;
    assert ranges[i] in multiset(stored);
    forall range | range in stored && range.Contains(offset) ensures range == ranges[i] {
      assert range in multiset(ranges);
      var j :| 0 <= j < |ranges| && ranges[j] == range;
      if j != i { Apart(ranges, i, j); }
    }
  }

  lemma EpilogueUnmapped(block: DecodedBlock, e: EmittedBlock, offset: nat)
    requires Compiled(block, e)
    requires var n := e.translated; offset >= HostStart(Ops(block.instructions[..n]), n)
    ensures forall range :: range in e.sourceMap.ranges ==> !range.Contains(offset)
  {
    hide Classify, HostStart, EncodeAll, LowerAll, LowerEpilogue, LengthOf, Ops;
    var translated := block.instructions[..e.translated];
    var ranges := RangesOf(translated);
    forall j | 0 <= j < |ranges| ensures !ranges[j].Contains(offset) {
      if j + 1 < e.translated { HostStartMonotonic(Ops(translated), j + 1, e.translated); }
    }
    forall range | range in e.sourceMap.ranges ensures !range.Contains(offset) {
      assert range in multiset(ranges);
    }
  }
}
