/**
 The direct emitter (emit.rs): host x86-64 bytes for the leading register-only
 instructions of a decoded guest block. `Lower` states the same code one host
 instruction at a time; the assembler methods push the raw bytes.
 */
module DirectEmitter {
  import opened Words
  import opened Bits
  import opened GuestCpu
  import opened Iced
  import opened RegisterOnly
  import opened HostMachine
  import opened FlagAgreement
  import opened SourceMap

  datatype BlockExit =
    | DirectSuccessor | ConditionalSuccessor | IndirectSuccessor | KernelCall
    | MemorySlowPath | UnsupportedInstruction | BudgetExhausted

  function ToRaw(exit: BlockExit): u32 {
    match exit
    case DirectSuccessor => 0 case ConditionalSuccessor => 1 case IndirectSuccessor => 2
    case KernelCall => 3 case MemorySlowPath => 4 case UnsupportedInstruction => 5 case BudgetExhausted => 6
  }

  /** The dispatcher's reading of a returned RAX; `None` is a malformed exit. */
  function FromRaw(value: u64): Option<BlockExit> {
    if value == 0 then Some(DirectSuccessor)
    else if value == 1 then Some(ConditionalSuccessor)
    else if value == 2 then Some(IndirectSuccessor)
    else if value == 3 then Some(KernelCall)
    else if value == 4 then Some(MemorySlowPath)
    else if value == 5 then Some(UnsupportedInstruction)
    else if value == 6 then Some(BudgetExhausted)
    else None
  }

  // --- layout and opcode tables -----------------------------------------

  function GprDisp(register: Gpr): u8 {
    match register
    case Eax => 0 case Ecx => 4 case Edx => 8 case Ebx => 12
    case Esp => 16 case Ebp => 20 case Esi => 24 case Edi => 28
  }

  const EIP_DISP: u8 := 32
  const EFLAGS_DISP: u8 := 36

  function AluRegisterOpcode(op: AluOp): u8 {
    match op
    case AluAdd => 0x01 case AluOr => 0x09 case AluAnd => 0x21 case AluSub => 0x29 case AluXor => 0x31
  }

  function AluImmediateModrm(op: AluOp): u8 {
    match op
    case AluAdd => 0xC0 case AluOr => 0xC8 case AluAnd => 0xE0 case AluSub => 0xE8 case AluXor => 0xF0
  }

  // --- the code as host instructions -------------------------------------

  function LowerMerge(mask: u32): seq<HostInstr> {
    [HPop(Rdx), HAluImm(HostAnd, Rdx, mask), HLoad(Rax, EFLAGS_DISP),
     HAndEax(BitNot(mask)), HAluReg(HostOr, Rax, Rdx), HStore(Rax, EFLAGS_DISP)]
  }

  function LowerAlu(op: AluOp, dst: Gpr, src: RegisterOperand): seq<HostInstr> {
    match src
    case FromGpr(source) => [HLoad(Rax, GprDisp(dst)), HLoad(Rdx, GprDisp(source)), HAluReg(HostOf(op), Rax, Rdx)]
    case Immediate(value) => [HLoad(Rax, GprDisp(dst)), HAluImm(HostOf(op), Rax, value)]
  }

  function LowerLoad(src: RegisterOperand): HostInstr {
    match src
    case FromGpr(source) => HLoad(Rax, GprDisp(source))
    case Immediate(value) => HMovImm(Rax, value)
  }

  function Lower(op: RegisterOp): seq<HostInstr> {
    match op
    case RegNop => [HNop]
    case RegMov(dst, src) => [LowerLoad(src), HStore(Rax, GprDisp(dst))]
    case RegAlu(alu, dst, src) =>
      LowerAlu(alu, dst, src) + [HPushfq, HStore(Rax, GprDisp(dst))] + LowerMerge(DefinedFlags(alu))
  }

  function LowerEpilogue(exitEip: u32, exit: BlockExit): seq<HostInstr> {
    [HStoreImm(EIP_DISP, exitEip), HMovImm(Rax, ToRaw(exit)), HRet]
  }

  // --- encoding ----------------------------------------------------------

  function RegCode(r: HostReg): u8 { if r == Rax then 0 else 2 }

  function GroupCode(op: HostAlu): u8 {
    match op
    case HostAdd => 0 case HostOr => 1 case HostAnd => 4 case HostSub => 5 case HostXor => 6
  }

  function OpcodeOf(op: HostAlu): u8 {
    match op
    case HostAdd => 0x01 case HostOr => 0x09 case HostAnd => 0x21 case HostSub => 0x29 case HostXor => 0x31
  }

  /** The encoding the emitter picks for each host instruction. */
  function Encode(instr: HostInstr): seq<u8> {
    match instr
    case HNop => [0x90]
    case HLoad(reg, disp) => [0x8B, 0x41 + 8 * RegCode(reg), disp]
    case HStore(reg, disp) => [0x89, 0x41 + 8 * RegCode(reg), disp]
    case HMovImm(reg, imm) => [0xB8 + RegCode(reg)] + Le32(imm)
    case HStoreImm(disp, imm) => [0xC7, 0x41, disp] + Le32(imm)
    case HAluReg(op, dst, src) => [OpcodeOf(op), 0xC0 + 8 * RegCode(src) + RegCode(dst)]
    case HAluImm(op, dst, imm) => [0x81, 0xC0 + 8 * GroupCode(op) + RegCode(dst)] + Le32(imm)
    case HAndEax(imm) => [0x25] + Le32(imm)
    case HPushfq => [0x9C]
    case HPop(reg) => [0x58 + RegCode(reg)]
    case HRet => [0xC3]
  }

  /** The bytes of a run of host instructions. */
  function EncodeAll(code: seq<HostInstr>): seq<u8> { FlatMap(Encode, code) }

  function LowerAll(ops: seq<RegisterOp>): seq<HostInstr> { FlatMap(Lower, ops) }

  // --- the assembler -------------------------------------------------------

  /** The code of a block under construction; the CPU state is addressed through RCX. */
  class BlockAssembler {
    var bytes: seq<u8>

    constructor ()
      ensures bytes == []
    {
      bytes := [];
    }

    method LoadGprEax(register: Gpr)
      modifies this
      ensures bytes == old(bytes) + Encode(HLoad(Rax, GprDisp(register)))
    {
      bytes := bytes + [0x8B, 0x41, GprDisp(register)];
    }

    method LoadGprEdx(register: Gpr)
      modifies this
      ensures bytes == old(bytes) + Encode(HLoad(Rdx, GprDisp(register)))
    {
      bytes := bytes + [0x8B, 0x51, GprDisp(register)];
    }

    method StoreGprEax(register: Gpr)
      modifies this
      ensures bytes == old(bytes) + Encode(HStore(Rax, GprDisp(register)))
    {
      bytes := bytes + [0x89, 0x41, GprDisp(register)];
    }

    method LoadEax(src: RegisterOperand)
      modifies this
      ensures bytes == old(bytes) + Encode(LowerLoad(src))
    {
      match src
      case FromGpr(source) => LoadGprEax(source);
      case Immediate(value) => bytes := bytes + [0xB8] + Le32(value);
    }

    /** Takes the flag image off the host stack and copies its masked bits into EFLAGS. */
    method MergeFlagsCode(mask: u32)
      modifies this
      ensures bytes == old(bytes) + EncodeAll(LowerMerge(mask))
    {
      MergeEncoding(mask);
      hide Le32, LowerMerge, EncodeAll;
      bytes := bytes + [0x5A];
      bytes := bytes + [0x81, 0xE2] + Le32(mask);
      bytes := bytes + [0x8B, 0x41, EFLAGS_DISP];
      bytes := bytes + [0x25] + Le32(BitNot(mask));
      bytes := bytes + [0x09, 0xD0];
      bytes := bytes + [0x89, 0x41, EFLAGS_DISP];
    }

    /** The ALU instruction itself, on EAX. */
    method AluCode(alu: AluOp, dst: Gpr, src: RegisterOperand)
      modifies this
      ensures bytes == old(bytes) + EncodeAll(LowerAlu(alu, dst, src))
    {
      AluEncoding(alu, dst, src);
      hide Encode, Le32, EncodeAll, LowerAlu;
      LoadGprEax(dst);
      match src
      case FromGpr(source) =>
        LoadGprEdx(source);
        bytes := bytes + [AluRegisterOpcode(alu), 0xD0];
      case Immediate(value) =>
        bytes := bytes + [0x81, AluImmediateModrm(alu)] + Le32(value);
    }

    /** Saves the flags an operation left on the host stack, then writes its result back. */
    method CaptureCode(dst: Gpr)
      modifies this
      ensures bytes == old(bytes) + EncodeAll([HPushfq, HStore(Rax, GprDisp(dst))])
    {
      bytes := bytes + [0x9C];
      StoreGprEax(dst);
      EncodeTwo(HPushfq, HStore(Rax, GprDisp(dst)));
    }

    method RegisterOpCode(op: RegisterOp)
      modifies this
      ensures bytes == old(bytes) + EncodeAll(Lower(op))
    {
      OpEncoding(op);
      hide Encode, Le32, Lower, LowerAlu, LowerMerge, EncodeAll, DefinedFlags;
      match op
      case RegNop => bytes := bytes + [0x90];
      case RegMov(dst, src) =>
        LoadEax(src);
        StoreGprEax(dst);
      case RegAlu(alu, dst, src) =>
        AluCode(alu, dst, src);
        CaptureCode(dst);
        MergeFlagsCode(DefinedFlags(alu));
    }

    method Epilogue(exitEip: u32, exit: BlockExit)
      modifies this
      ensures bytes == old(bytes) + EncodeAll(LowerEpilogue(exitEip, exit))
    {
      EpilogueEncoding(exitEip, exit);
      hide Encode, Le32, EncodeAll, LowerEpilogue;
      bytes := bytes + [0xC7, 0x41, EIP_DISP] + Le32(exitEip);
      bytes := bytes + [0xB8] + Le32(ToRaw(exit));
      bytes := bytes + [0xC3];
    }
  }

  /** The opcode tables name the encodings of the host operations. */
  lemma AluEncodings(op: AluOp)
    ensures [AluRegisterOpcode(op), 0xD0] == Encode(HAluReg(HostOf(op), Rax, Rdx))
    ensures forall value: u32 :: [0x81, AluImmediateModrm(op)] + Le32(value) == Encode(HAluImm(HostOf(op), Rax, value))
  {
    hide Le32;
  }

  lemma AluEncoding(alu: AluOp, dst: Gpr, src: RegisterOperand)
    ensures EncodeAll(LowerAlu(alu, dst, src)) == Encode(HLoad(Rax, GprDisp(dst))) + (
              match src
              case FromGpr(source) => Encode(HLoad(Rdx, GprDisp(source))) + [AluRegisterOpcode(alu), 0xD0]
              case Immediate(value) => [0x81, AluImmediateModrm(alu)] + Le32(value))
  {
    AluEncodings(alu);
    hide Encode, Le32, FlatMap;
    match src
    case FromGpr(source) =>
      EncodeThree(HLoad(Rax, GprDisp(dst)), HLoad(Rdx, GprDisp(source)), HAluReg(HostOf(alu), Rax, Rdx));
    case Immediate(value) =>
      EncodeTwo(HLoad(Rax, GprDisp(dst)), HAluImm(HostOf(alu), Rax, value));
  }

  lemma OpEncoding(op: RegisterOp)
    ensures EncodeAll(Lower(op)) ==
            match op
            case RegNop => [0x90]
            case RegMov(dst, src) => Encode(LowerLoad(src)) + Encode(HStore(Rax, GprDisp(dst)))
            case RegAlu(alu, dst, src) =>
              EncodeAll(LowerAlu(alu, dst, src)) + EncodeAll([HPushfq, HStore(Rax, GprDisp(dst))])
              + EncodeAll(LowerMerge(DefinedFlags(alu)))
  {
    hide LowerAlu, LowerMerge, FlatMap;
    match op
    case RegNop => EncodeOne(HNop);
    case RegMov(dst, src) => EncodeTwo(LowerLoad(src), HStore(Rax, GprDisp(dst)));
    case RegAlu(alu, dst, src) =>
      var compute, capture := LowerAlu(alu, dst, src), [HPushfq, HStore(Rax, GprDisp(dst))];
      FlatMapAppend(Encode, compute, capture);
      FlatMapAppend(Encode, compute + capture, LowerMerge(DefinedFlags(alu)));
  }

  lemma EpilogueEncoding(exitEip: u32, exit: BlockExit)
    ensures EncodeAll(LowerEpilogue(exitEip, exit)) ==
            [0xC7, 0x41, EIP_DISP] + Le32(exitEip) + ([0xB8] + Le32(ToRaw(exit))) + [0xC3]
  {
    hide Le32, FlatMap, ToRaw;
    EncodeThree(HStoreImm(EIP_DISP, exitEip), HMovImm(Rax, ToRaw(exit)), HRet);
  }

  lemma MergeEncoding(mask: u32)
    ensures EncodeAll(LowerMerge(mask)) ==
            [0x5A] + ([0x81, 0xE2] + Le32(mask)) + [0x8B, 0x41, EFLAGS_DISP] + ([0x25] + Le32(BitNot(mask)))
            + [0x09, 0xD0] + [0x89, 0x41, EFLAGS_DISP]
  {
    hide Le32, FlatMap;
    EncodeSix(HPop(Rdx), HAluImm(HostAnd, Rdx, mask), HLoad(Rax, EFLAGS_DISP),
      HAndEax(BitNot(mask)), HAluReg(HostOr, Rax, Rdx), HStore(Rax, EFLAGS_DISP));
  }

  lemma EncodeOne(a: HostInstr)
    ensures EncodeAll([a]) == Encode(a)
  {
    hide Encode;
    calc {
      FlatMap(Encode, [a]);
      { assert [a][..0] == []; }
      [] + Encode(a);
    }
  }

  lemma EncodeTwo(a: HostInstr, b: HostInstr)
    ensures EncodeAll([a, b]) == Encode(a) + Encode(b)
  {
    hide Encode;
    EncodeOne(a);
    assert [a, b][..1] == [a];
  }

  lemma EncodeThree(a: HostInstr, b: HostInstr, c: HostInstr)
    ensures EncodeAll([a, b, c]) == Encode(a) + Encode(b) + Encode(c)
  {
    hide Encode;
    EncodeTwo(a, b);
    assert [a, b, c][..2] == [a, b];
  }

  lemma EncodeSix(a: HostInstr, b: HostInstr, c: HostInstr, d: HostInstr, e: HostInstr, f: HostInstr)
    ensures EncodeAll([a, b, c, d, e, f]) == Encode(a) + Encode(b) + Encode(c) + Encode(d) + Encode(e) + Encode(f)
  {
    hide Encode;
    EncodeThree(a, b, c);
    EncodeThree(d, e, f);
    FlatMapAppend(Encode, [a, b, c], [d, e, f]);
    assert [a, b, c] + [d, e, f] == [a, b, c, d, e, f];
  }

  // --- emit ----------------------------------------------------------------

  /** Guest instructions in a row, with where they start and how long they are. */
  datatype DecodedBlock = DecodedBlock(start: u32, instructions: seq<Instruction>, byteLen: nat)
  {
    /** What the block decoder produces: instructions one after another from the start. */
    ghost predicate Contiguous() {
      && byteLen == LengthOf(instructions)
      && forall i :: 0 <= i < |instructions| ==> instructions[i].ip == start + LengthOf(instructions[..i])
    }
  }

  function LengthOf(instructions: seq<Instruction>): nat {
    if instructions == [] then 0
    else LengthOf(instructions[..|instructions| - 1]) + instructions[|instructions| - 1].len
  }

  datatype JitError =
    | EmptyBlock
    | BlockEndOverflow(start: u32)
    | MetadataOverflow(start: u32)
    | Metadata(error: SourceMapError)

  datatype EmittedBlock = EmittedBlock(
    bytes: seq<u8>,
    guestStart: u32,
    exitEip: u32,
    staticExit: BlockExit,
    translated: nat,
    sourceMap: BlockSourceMap)

  function ClampIp(ip: u64): u32 { if ip < TWO32 then ip else TWO32 - 1 }

  /** How many leading instructions are in the register-only subset. */
  function Prefix(instructions: seq<Instruction>): (n: nat)
    ensures n <= |instructions|
    ensures forall i :: 0 <= i < n ==> Classify(instructions[i]).Some?
    ensures n < |instructions| ==> Classify(instructions[n]).None?
  {
    if instructions == [] || Classify(instructions[0]).None? then 0 else 1 + Prefix(instructions[1..])
  }

  ghost predicate AllClassified(instructions: seq<Instruction>) {
    forall i :: 0 <= i < |instructions| ==> Classify(instructions[i]).Some?
  }

  function Ops(instructions: seq<Instruction>): (ops: seq<RegisterOp>)
    requires forall i :: 0 <= i < |instructions| ==> Classify(instructions[i]).Some?
    ensures |ops| == |instructions|
  {
    seq(|instructions|, i requires 0 <= i < |instructions| => Classify(instructions[i]).value)
  }

  /** The host offset at which the code of operation `i` starts. */
  function HostStart(ops: seq<RegisterOp>, i: nat): nat
    requires i <= |ops|
  {
    |EncodeAll(LowerAll(ops[..i]))|
  }

  function RangesOf(instructions: seq<Instruction>): (ranges: seq<SourceRange>)
    requires forall i :: 0 <= i < |instructions| ==> Classify(instructions[i]).Some?
    ensures |ranges| == |instructions|
  {
    seq(|instructions|, i requires 0 <= i < |instructions| =>
      SourceRange(HostStart(Ops(instructions), i), HostStart(Ops(instructions), i + 1),
                  ClampIp(instructions[i].ip), instructions[i].len))
  }

  /** There is no guest address behind the block's last byte. */
  predicate EndOverflows(block: DecodedBlock) {
    block.start + block.byteLen >= TWO32
  }

  /** What emission produces: the code, the exit and the source map of the translated prefix. */
  ghost predicate Compiled(block: DecodedBlock, e: EmittedBlock) {
    var n := Prefix(block.instructions);
    var translated := block.instructions[..n];
    && !EndOverflows(block)
    && e.bytes == EncodeAll(LowerAll(Ops(translated))) + EncodeAll(LowerEpilogue(e.exitEip, e.staticExit))
    && e.guestStart == block.start
    && e.translated == n
    && e.staticExit == (if n == |block.instructions| then DirectSuccessor else UnsupportedInstruction)
    && e.exitEip == (if n == |block.instructions| then block.start + block.byteLen
                     else if block.instructions[n].ip < TWO32 then block.instructions[n].ip else 0xFFFF_FFFF)
    && e.sourceMap.Valid()
    && multiset(e.sourceMap.ranges) == multiset(RangesOf(translated))
    && e.sourceMap.faults == []
  }

  lemma CodeNonEmpty(op: RegisterOp)
    ensures |EncodeAll(Lower(op))| > 0
  {
    hide Lower;
    var code := Lower(op);
    assert |code| > 0 by { LowerNonEmpty(op); }
    assert |Encode(code[|code| - 1])| > 0 by { hide FlatMap; }
  }

  lemma LowerNonEmpty(op: RegisterOp)
    ensures |Lower(op)| > 0
  {}

  /** One more operation extends the code by its own, non-empty, bytes. */
  lemma CodeStep(ops: seq<RegisterOp>, i: nat)
    requires i < |ops|
    ensures EncodeAll(LowerAll(ops[..i + 1])) == EncodeAll(LowerAll(ops[..i])) + EncodeAll(Lower(ops[i]))
    ensures HostStart(ops, i) < HostStart(ops, i + 1)
  {
    hide Lower, Encode;
    assert ops[..i + 1][..i] == ops[..i];
    FlatMapAppend(Encode, LowerAll(ops[..i]), Lower(ops[i]));
    CodeNonEmpty(ops[i]);
  }

  lemma {:induction false} HostStartMonotonic(ops: seq<RegisterOp>, i: nat, j: nat)
    requires i < j <= |ops|
    ensures HostStart(ops, i) < HostStart(ops, j)
  {
    CodeStep(ops, j - 1);
    hide EncodeAll, LowerAll, HostStart;
    if i < j - 1 { HostStartMonotonic(ops, i, j - 1); }
  }

  /** The emitter's ranges are always acceptable metadata. */
  lemma RangesAccepted(instructions: seq<Instruction>)
    requires AllClassified(instructions)
    ensures RangesAcceptable(RangesOf(instructions))
  {
    hide HostStart, Ops;
    var ranges, ops := RangesOf(instructions), Ops(instructions);
    forall i | 0 <= i < |ranges| ensures ranges[i].hostStart < ranges[i].hostEnd {
      HostStartMonotonic(ops, i, i + 1);
    }
    forall i, j | 0 <= i < j < |ranges| ensures Disjoint(ranges[i], ranges[j]) {
      if i + 1 < j { HostStartMonotonic(ops, i + 1, j); }
    }
  }

  /** The prefix's code is too long for its offsets to be recorded in 32 bits. */
  ghost predicate CodeOverflows(block: DecodedBlock) {
    var n := Prefix(block.instructions);
    HostStart(Ops(block.instructions[..n]), n) >= TWO32
  }

  lemma PrefixIs(instructions: seq<Instruction>, n: nat)
    requires n <= |instructions|
    requires AllClassified(instructions[..n])
    requires n < |instructions| ==> Classify(instructions[n]).None?
    ensures Prefix(instructions) == n
  {
    hide Classify;
    forall k | 0 <= k < n ensures Classify(instructions[k]).Some? {
      assert instructions[..n][k] == instructions[k];
    }
  }

  /** Extending a classified prefix by one instruction. */
  lemma PrefixStep(instructions: seq<Instruction>, i: nat)
    requires i < |instructions|
    requires AllClassified(instructions[..i]) && Classify(instructions[i]).Some?
    ensures AllClassified(instructions[..i + 1])
    ensures EncodeAll(LowerAll(Ops(instructions[..i + 1]))) ==
            EncodeAll(LowerAll(Ops(instructions[..i]))) + EncodeAll(Lower(Classify(instructions[i]).value))
    ensures RangesOf(instructions[..i + 1]) == RangesOf(instructions[..i]) +
            [SourceRange(|EncodeAll(LowerAll(Ops(instructions[..i])))|, |EncodeAll(LowerAll(Ops(instructions[..i + 1])))|,
                         ClampIp(instructions[i].ip), instructions[i].len)]
  {
    hide Classify, LowerAll, EncodeAll;
    var before, after := instructions[..i], instructions[..i + 1];
    assert after[..i] == before;
    var ops, ops' := Ops(before), Ops(after);
    forall k | 0 <= k <= i ensures ops'[..k] == ops[..k] {}
    assert ops'[..i + 1] == ops';
    assert ops[..i] == ops;
    CodeStep(ops', i);
  }

  /** The code only grows, so an overflow anywhere is an overflow of the whole prefix. */
  lemma GrowsPast(instructions: seq<Instruction>, i: nat)
    requires i <= Prefix(instructions)
    ensures AllClassified(instructions[..i])
    ensures |EncodeAll(LowerAll(Ops(instructions[..i])))| <=
            var n := Prefix(instructions); HostStart(Ops(instructions[..n]), n)
    ensures i == Prefix(instructions) ==>
            HostStart(Ops(instructions[..i]), i) == |EncodeAll(LowerAll(Ops(instructions[..i])))|
  {
    hide Classify, LowerAll, EncodeAll;
    var n := Prefix(instructions);
    var ops := Ops(instructions[..n]);
    assert ops[..i] == Ops(instructions[..i]);
    if i < n { HostStartMonotonic(ops, i, n); }
  }

  /** Emits one decoded block. */
  method Emit(block: DecodedBlock) returns (r: Result<EmittedBlock, JitError>)
    ensures r.Err? <==> block.instructions == [] || EndOverflows(block) || CodeOverflows(block)
    ensures r.Err? ==> !r.error.Metadata?
    ensures r.Ok? ==> Compiled(block, r.value)
  {
    hide Classify, EncodeAll, LowerAll, LowerEpilogue, RangesOf, Ops, HostStart;
    var instructions := block.instructions;
    if |instructions| == 0 { return Err(EmptyBlock); }
    if block.start + block.byteLen >= TWO32 { return Err(BlockEndOverflow(block.start)); }

    var assembler := new BlockAssembler();
    var ranges: seq<SourceRange> := [];
    var i := 0;
    var staticExit := DirectSuccessor;
    var exitEip: u32 := block.start + block.byteLen;
    EmptyCode();
    assert instructions[..0] == [];
    while i < |instructions| && staticExit == DirectSuccessor
      invariant 0 <= i <= |instructions|
      invariant fresh(assembler)
      invariant AllClassified(instructions[..i])
      invariant assembler.bytes == EncodeAll(LowerAll(Ops(instructions[..i])))
      invariant |assembler.bytes| < TWO32
      invariant ranges == RangesOf(instructions[..i])
      invariant staticExit == DirectSuccessor ==> exitEip == block.start + block.byteLen
      invariant staticExit != DirectSuccessor ==>
                  && i < |instructions| && Classify(instructions[i]).None?
                  && staticExit == UnsupportedInstruction && exitEip == ClampIp(instructions[i].ip)
      decreases |instructions| - i, staticExit == DirectSuccessor
    {
      var op := Classify(instructions[i]);
      if op.None? {
        staticExit := UnsupportedInstruction;
        exitEip := ClampIp(instructions[i].ip);
      } else {
        PrefixReaches(instructions, i + 1);
        var hostStart := |assembler.bytes|;
        assembler.RegisterOpCode(op.value);
        PrefixStep(instructions, i);
        if |assembler.bytes| >= TWO32 {
          GrowsPast(instructions, i + 1);
          return Err(MetadataOverflow(block.start));
        }
        ranges := ranges + [SourceRange(hostStart, |assembler.bytes|, ClampIp(instructions[i].ip), instructions[i].len)];
        i := i + 1;
      }
    }
    PrefixIs(instructions, i);
    GrowsPast(instructions, i);
    assembler.Epilogue(exitEip, staticExit);
    RangesAccepted(instructions[..i]);
    var metadata := SourceMap.New(ranges, []);
    match metadata
    case Err(error) => return Err(Metadata(error));
    case Ok(sourceMap) =>
      return Ok(EmittedBlock(assembler.bytes, block.start, exitEip, staticExit, i, sourceMap));
  }

  lemma EmptyCode()
    ensures Ops([]) == [] && EncodeAll(LowerAll([])) == [] && RangesOf([]) == []
  {}

  lemma PrefixReaches(instructions: seq<Instruction>, i: nat)
    requires 0 < i <= |instructions|
    requires AllClassified(instructions[..i - 1]) && Classify(instructions[i - 1]).Some?
    ensures i <= Prefix(instructions)
  {
    hide Classify;
    forall k | 0 <= k < i - 1 ensures Classify(instructions[k]).Some? {
      assert instructions[..i - 1][k] == instructions[k];
    }
  }
}
