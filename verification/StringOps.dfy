/**
 String instructions (exec.rs, `string_op`): one element at a time, repeated
 while ECX lasts, in chunks that resume at the unchanged EIP.
 */
module StringOps {
  import opened Words
  import opened Bits
  import opened GuestCpu
  import opened Iced
  import opened AluFlags
  import opened GuestMemory
  import opened Tier0

  datatype StringKind = SMovs | SStos | SLods | SScas | SCmps

  /** What does not change while a string instruction runs. */
  datatype Plan = Plan(kind: StringKind, w: Width, repeated: bool, repne: bool, sourceBase: u32, destinationBase: u32)
  {
    /** SCAS and CMPS also stop on the zero flag. */
    predicate Conditional() { kind.SScas? || kind.SCmps? }
  }

  /** Operands addressed by ESI and EDI in full. */
  predicate OperandsValid(kind: StringKind, i: Instruction) {
    match kind
    case SMovs => i.Op(0).MemoryESEDI? && i.Op(1).MemorySegESI?
    case SStos => i.Op(0).MemoryESEDI?
    case SLods => i.Op(1).MemorySegESI?
    case SScas => i.Op(1).MemoryESEDI?
    case SCmps => i.Op(0).MemorySegESI? && i.Op(1).MemoryESEDI?
  }

  function KindOfString(m: Mnemonic): Option<StringKind> {
    match m
    case Movs => Some(SMovs) case Stos => Some(SStos) case Lods => Some(SLods)
    case Scas => Some(SScas) case Cmps => Some(SCmps) case _ => None
  }

  function MakePlan(cpu: CpuState, i: Instruction): Result<Plan, ExecError> {
    match (KindOfString(i.mnemonic), WidthOfBytes(i.width))
    case (Some(kind), Some(w)) =>
      if !OperandsValid(kind, i) then Err(Unsupported(cpu.eip)) else
      (var sourceBase :- SegmentBase(cpu, i.memory.segment);
       Ok(Plan(kind, w, i.rep || i.repne, i.repne, sourceBase, cpu.segments[0])))
    case _ => Err(Unsupported(cpu.eip))
  }

  function Delta(s: MState, p: Plan): int {
    if Bit(s.cpu.eflags, DIRECTION_BIT) then 0 - p.w.Bytes() else p.w.Bytes()
  }

  function SourceOf(s: MState, p: Plan): u32 { WrapAdd(p.sourceBase, Reg(s, Esi)) }

  function DestinationOf(s: MState, p: Plan): u32 { WrapAdd(p.destinationBase, Reg(s, Edi)) }

  function StepSource(s: MState, delta: int): MState { SetReg(s, Esi, WrapAdd(Reg(s, Esi), delta)) }

  function StepDestination(s: MState, delta: int): MState { SetReg(s, Edi, WrapAdd(Reg(s, Edi), delta)) }

  /** The accumulator at the plan's width. */
  function AccumulatorValue(s: MState, w: Width): u32 { Mask(s.cpu.gpr[0], w) }

  function WithAccumulator(s: MState, w: Width, value: u32): MState {
    SetReg(s, Eax, match w
                   case Byte => ReplaceLow(s.cpu.gpr[0], value, 0x100)
                   case Word => ReplaceLow(s.cpu.gpr[0], value, 0x1_0000)
                   case Dword => value)
  }

  /** One element: all of it, or a fault that changes nothing. */
  function Element(s: MState, p: Plan): Outcome {
    var d := Delta(s, p);
    match p.kind
    case SMovs =>
      (var value :- LoadWidth(s.memory, SourceOf(s, p), p.w);
       var memory :- StoreWidth(s.memory, DestinationOf(s, p), p.w, value);
       Ok(StepDestination(StepSource(s.(memory := memory), d), d)))
    case SStos =>
      (var memory :- StoreWidth(s.memory, DestinationOf(s, p), p.w, AccumulatorValue(s, p.w));
       Ok(StepDestination(s.(memory := memory), d)))
    case SLods =>
      (var value :- LoadWidth(s.memory, SourceOf(s, p), p.w);
       Ok(StepSource(WithAccumulator(s, p.w, value), d)))
    case SScas =>
      (var value :- LoadWidth(s.memory, DestinationOf(s, p), p.w);
       Ok(StepDestination(WithFlags(s, ARITHMETIC, SubBits(AccumulatorValue(s, p.w), value, false, p.w).1), d)))
    case SCmps =>
      (var a :- LoadWidth(s.memory, SourceOf(s, p), p.w);
       var b :- LoadWidth(s.memory, DestinationOf(s, p), p.w);
       Ok(StepDestination(StepSource(WithFlags(s, ARITHMETIC, SubBits(a, b, false, p.w).1), d), d)))
  }

  /** One completed iteration of a repeated form counts ECX down. */
  function Iteration(s: MState, p: Plan): Outcome {
    var t :- Element(s, p);
    Ok(SetReg(t, Ecx, WrapSub(Reg(t, Ecx), 1)))
  }

  /** REPNE goes on while the zero flag is clear, REPE while it is set. */
  predicate Stops(s: MState, p: Plan) {
    p.Conditional() && Bit(s.cpu.eflags, ZERO_BIT) == p.repne
  }

  /** Elements leave ECX alone. */
  lemma ElementKeepsCount(s: MState, p: Plan)
    requires Element(s, p).Ok?
    ensures Reg(Element(s, p).value, Ecx) == Reg(s, Ecx)
    ensures Element(s, p).value.cpu.eip == s.cpu.eip && Element(s, p).value.cpu.tsc == s.cpu.tsc
    ensures Element(s, p).value.cpu.segments == s.cpu.segments
  {
    hide LoadWidth, StoreWidth, SubBits, MergeFlags, FlagWord, Mask, WrapAdd;
  }

  lemma IterationCounts(s: MState, p: Plan)
    requires Reg(s, Ecx) > 0 && Iteration(s, p).Ok?
    ensures Reg(Iteration(s, p).value, Ecx) == Reg(s, Ecx) - 1
    ensures Iteration(s, p).value.cpu.eip == s.cpu.eip && Iteration(s, p).value.cpu.tsc == s.cpu.tsc
  {
    hide Element;
    ElementKeepsCount(s, p);
  }

  // --- the unbounded instruction -------------------------------------------------

  datatype RepResult = Finished(state: MState) | Faulted(state: MState, error: ExecError)

  /** The repeated instruction as the architecture describes it, without chunks. */
  function RepSpec(s: MState, p: Plan): RepResult
    decreases Reg(s, Ecx)
  {
    if Reg(s, Ecx) == 0 then Finished(s) else
    match Iteration(s, p)
    case Err(e) => Faulted(s, e)
    case Ok(t) =>
      IterationCounts(s, p);
      if Stops(t, p) then Finished(t) else RepSpec(t, p)
  }

  // --- one chunk ---------------------------------------------------------------------

  const MAX_REP_ITERATIONS_PER_STEP: nat := 0x1_0000

  datatype ChunkResult = Complete(state: MState) | Paused(state: MState) | ChunkFaulted(state: MState, error: ExecError)

  /** At most `budget` iterations; then the instruction pauses. */
  function Chunk(s: MState, p: Plan, budget: nat): ChunkResult
    decreases budget
  {
    if Reg(s, Ecx) == 0 then Complete(s)
    else if budget == 0 then Paused(s)
    else match Iteration(s, p)
      case Err(e) => ChunkFaulted(s, e)
      case Ok(t) => if Stops(t, p) then Complete(t) else Chunk(t, p, budget - 1)
  }

  /** A chunk is a prefix of the unbounded instruction, and a pause has made progress. */
  lemma {:induction false} ChunkRefines(s: MState, p: Plan, budget: nat)
    ensures match Chunk(s, p, budget)
            case Complete(t) => RepSpec(s, p) == Finished(t)
            case ChunkFaulted(t, e) => RepSpec(s, p) == Faulted(t, e)
            case Paused(t) => RepSpec(s, p) == RepSpec(t, p) && Reg(t, Ecx) + budget == Reg(s, Ecx)
    ensures Chunk(s, p, budget).state.cpu.eip == s.cpu.eip && Chunk(s, p, budget).state.cpu.tsc == s.cpu.tsc
    decreases budget
  {
    hide Iteration, Stops;
    if Reg(s, Ecx) != 0 && budget != 0 {
      match Iteration(s, p)
      case Err(_) =>
      case Ok(t) =>
        IterationCounts(s, p);
        if !Stops(t, p) { ChunkRefines(t, p, budget - 1); }
    }
  }

  // --- stepping until EIP moves ---------------------------------------------------------

  /**
   What one `step` of a string instruction leaves: done and past the
   instruction, paused on it, or faulted on it with its progress kept.
   */
  function StepString(s: MState, p: Plan, len: u8): RepResult {
    if !p.repeated then
      match Element(s, p)
      case Err(e) => Faulted(s, e)
      case Ok(t) => Finished(Retire(JumpTo(t, WrapAdd(t.cpu.eip, len))))
    else
      match Chunk(s, p, MAX_REP_ITERATIONS_PER_STEP)
      case Complete(t) => Finished(Retire(JumpTo(t, WrapAdd(t.cpu.eip, len))))
      case Paused(t) => Finished(Retire(t))
      case ChunkFaulted(t, e) => Faulted(t, e)
  }

  /** One `step` of a decoded string instruction: the plan is made anew each time. */
  function StringStep(s: MState, i: Instruction): RepResult {
    match MakePlan(s.cpu, i) case Err(e) => Faulted(s, e) case Ok(p) => StepString(s, p, i.len)
  }

  lemma {:induction false} ChunkKeepsSegments(s: MState, p: Plan, budget: nat)
    ensures Chunk(s, p, budget).state.cpu.segments == s.cpu.segments
    decreases budget
  {
    hide Element, Stops;
    if Reg(s, Ecx) != 0 && budget != 0 && Iteration(s, p).Ok? {
      ElementKeepsCount(s, p);
      if !Stops(Iteration(s, p).value, p) { ChunkKeepsSegments(Iteration(s, p).value, p, budget - 1); }
    }
  }

  /** A plan depends on the segment bases and the instruction alone, so progress does not change it. */
  lemma PlanKept(s: MState, t: MState, i: Instruction)
    requires t.cpu.segments == s.cpu.segments && t.cpu.eip == s.cpu.eip
    ensures MakePlan(t.cpu, i) == MakePlan(s.cpu, i)
  {}

  /** A repeat stopped for its iteration budget, as seen from inside the chunk. */
  ghost predicate Pauses(s: MState, i: Instruction) {
    && MakePlan(s.cpu, i).Ok? && MakePlan(s.cpu, i).value.repeated
    && Chunk(s, MakePlan(s.cpu, i).value, MAX_REP_ITERATIONS_PER_STEP).Paused?
  }

  /**
   What a caller sees of a step that did not fault: EIP is unmoved exactly when
   the repeat paused; then ECX has dropped by 65536, and the next step has the
   same plan.
   */
  lemma UnmovedIsPaused(s: MState, i: Instruction)
    requires i.len > 0 && StringStep(s, i).Finished?
    ensures StringStep(s, i).state.cpu.eip == s.cpu.eip <==> Pauses(s, i)
    ensures Pauses(s, i) ==>
              && Reg(StringStep(s, i).state, Ecx) == Reg(s, Ecx) - 0x1_0000
              && MakePlan(StringStep(s, i).state.cpu, i) == MakePlan(s.cpu, i)
  {
    hide MakePlan, Chunk, Element;
    var p := MakePlan(s.cpu, i).value;
    if p.repeated {
      ChunkRefines(s, p, MAX_REP_ITERATIONS_PER_STEP);
      ChunkKeepsSegments(s, p, MAX_REP_ITERATIONS_PER_STEP);
      if Pauses(s, i) { PlanKept(s, StringStep(s, i).state, i); }
    } else {
      ElementKeepsCount(s, p);
    }
  }

  /** Stepping again while EIP stays on the instruction. */
  function StepUntilMoved(s: MState, i: Instruction): RepResult
    requires i.len > 0
    decreases Reg(s, Ecx)
  {
    var r := StringStep(s, i);
    if r.Faulted? || r.state.cpu.eip != s.cpu.eip then r else
    UnmovedIsPaused(s, i);
    StepUntilMoved(r.state, i)
  }

  /** A state with its time-stamp counter set; the counter ticks once per step. */
  function AtTime(s: MState, tsc: u64): MState { s.(cpu := s.cpu.(tsc := tsc)) }

  lemma ElementIgnoresTime(s: MState, p: Plan, tsc: u64)
    ensures Element(AtTime(s, tsc), p) ==
            match Element(s, p) case Err(e) => Err(e) case Ok(t) => Ok(AtTime(t, tsc))
  {
    hide LoadWidth, StoreWidth, SubBits, MergeFlags, FlagWord, Mask, WrapAdd, ReplaceLow;
  }

  lemma {:induction false} RepIgnoresTime(s: MState, p: Plan, tsc: u64)
    ensures RepSpec(AtTime(s, tsc), p) ==
            match RepSpec(s, p)
            case Finished(t) => Finished(AtTime(t, tsc))
            case Faulted(t, e) => Faulted(AtTime(t, tsc), e)
    decreases Reg(s, Ecx)
  {
    hide Element;
    ElementIgnoresTime(s, p, tsc);
    if Reg(s, Ecx) != 0 {
      match Iteration(s, p)
      case Err(_) =>
      case Ok(t) =>
        IterationCounts(s, p);
        assert Iteration(AtTime(s, tsc), p) == Ok(AtTime(t, tsc));
        if !Stops(t, p) { RepIgnoresTime(t, p, tsc); }
    }
  }

  /**
   Chunking refines the unbounded instruction: stepping while EIP is unmoved
   gives the registers, flags and memory of the whole repeat, past the
   instruction; a fault leaves exactly the state after the completed iterations,
   with EIP still on it. Only the time-stamp counter tells the two apart.
   */
  lemma {:induction false} ChunkingRefines(s: MState, i: Instruction)
    requires i.len > 0 && MakePlan(s.cpu, i).Ok? && MakePlan(s.cpu, i).value.repeated
    ensures var r := StepUntilMoved(s, i);
            match RepSpec(s, MakePlan(s.cpu, i).value)
            case Finished(t) => r.Finished? && AtTime(r.state, 0) == AtTime(JumpTo(t, WrapAdd(s.cpu.eip, i.len)), 0)
            case Faulted(t, e) => r.Faulted? && r.error == e && AtTime(r.state, 0) == AtTime(t, 0) && r.state.cpu.eip == s.cpu.eip
    decreases Reg(s, Ecx)
  {
    hide Chunk, RepSpec, MakePlan;
    var p := MakePlan(s.cpu, i).value;
    ChunkRefines(s, p, MAX_REP_ITERATIONS_PER_STEP);
    if StringStep(s, i).Finished? { UnmovedIsPaused(s, i); }
    if Pauses(s, i) {
      var t, next := Chunk(s, p, MAX_REP_ITERATIONS_PER_STEP).state, StringStep(s, i).state;
      ChunkingRefines(next, i);
      RepIgnoresTime(t, p, next.cpu.tsc);
      assert AtTime(t, next.cpu.tsc) == next;
    }
  }

  /** Without a repeat prefix one step is the whole instruction. */
  lemma SingleElement(s: MState, i: Instruction)
    requires i.len > 0 && MakePlan(s.cpu, i).Ok? && !MakePlan(s.cpu, i).value.repeated
    ensures StepUntilMoved(s, i) == StringStep(s, i)
  {
    hide MakePlan, Element;
    if StringStep(s, i).Finished? { UnmovedIsPaused(s, i); }
  }

  // --- what the unbounded instruction does -------------------------------------------------

  /** The state after `k` completed iterations. */
  function After(s: MState, p: Plan, k: nat): Outcome {
    if k == 0 then Ok(s) else
    var t :- After(s, p, k - 1);
    Iteration(t, p)
  }

  lemma {:induction false} AfterShift(s: MState, p: Plan, k: nat)
    requires Iteration(s, p).Ok?
    ensures After(s, p, k + 1) == After(Iteration(s, p).value, p, k)
  {
    hide Iteration;
    if k > 0 { AfterShift(s, p, k - 1); }
  }

  /** How many iterations a repeat completes. */
  function Completed(s: MState, p: Plan): (k: nat)
    ensures k <= Reg(s, Ecx)
    decreases Reg(s, Ecx)
  {
    if Reg(s, Ecx) == 0 then 0 else
    match Iteration(s, p)
    case Err(e) => 0
    case Ok(t) =>
      IterationCounts(s, p);
      if Stops(t, p) then 1 else 1 + Completed(t, p)
  }

  /**
   The repeat leaves the state after exactly the completed iterations. It goes
   on past every one but the last, and ends because ECX ran out, because the
   zero flag stopped it, or because the next iteration faults.
   */
  lemma {:induction false} RepTrace(s: MState, p: Plan)
    ensures After(s, p, Completed(s, p)) == Ok(RepSpec(s, p).state)
    ensures Reg(RepSpec(s, p).state, Ecx) == Reg(s, Ecx) - Completed(s, p)
    ensures RepSpec(s, p).Finished? ==> Reg(RepSpec(s, p).state, Ecx) == 0 || Stops(RepSpec(s, p).state, p)
    ensures RepSpec(s, p).Faulted? ==>
              Reg(RepSpec(s, p).state, Ecx) > 0 && Iteration(RepSpec(s, p).state, p) == Err(RepSpec(s, p).error)
    ensures forall k :: 0 < k < Completed(s, p) ==> After(s, p, k).Ok? && !Stops(After(s, p, k).value, p)
    ensures RepSpec(s, p).Faulted? && Completed(s, p) > 0 ==> !Stops(RepSpec(s, p).state, p)
    decreases Reg(s, Ecx)
  {
    hide Iteration, Stops;
    if Reg(s, Ecx) != 0 && Iteration(s, p).Ok? {
      var t := Iteration(s, p).value;
      IterationCounts(s, p);
      AfterShift(s, p, 0);
      if !Stops(t, p) {
        RepTrace(t, p);
        var n := Completed(t, p);
        AfterShift(s, p, n);
        forall k | 0 < k < n + 1 ensures After(s, p, k).Ok? && !Stops(After(s, p, k).value, p) {
          AfterShift(s, p, k - 1);
        }
      }
    }
  }

  predicate MovesSource(p: Plan) { p.kind.SMovs? || p.kind.SLods? || p.kind.SCmps? }

  predicate MovesDestination(p: Plan) { !p.kind.SLods? }

  lemma ElementMoves(s: MState, p: Plan)
    requires Element(s, p).Ok?
    ensures var t := Element(s, p).value;
            && Reg(t, Esi) == (if MovesSource(p) then WrapAdd(Reg(s, Esi), Delta(s, p)) else Reg(s, Esi))
            && Reg(t, Edi) == (if MovesDestination(p) then WrapAdd(Reg(s, Edi), Delta(s, p)) else Reg(s, Edi))
            && Bit(t.cpu.eflags, DIRECTION_BIT) == Bit(s.cpu.eflags, DIRECTION_BIT)
            && (!p.Conditional() ==> t.cpu.eflags == s.cpu.eflags)
  {
    hide LoadWidth, StoreWidth, SubBits, MergeFlags, FlagWord, Mask, WrapAdd, Bit, ReplaceLow;
    DirectionKept(s, p);
  }

  lemma DirectionKept(s: MState, p: Plan)
    ensures forall st: Status :: Bit(MergeFlags(s.cpu.eflags, ARITHMETIC, FlagWord(st)), DIRECTION_BIT) == Bit(s.cpu.eflags, DIRECTION_BIT)
  {
    hide Bit, MergeFlags, FlagWord;
    forall st: Status ensures Bit(MergeFlags(s.cpu.eflags, ARITHMETIC, FlagWord(st)), DIRECTION_BIT) == Bit(s.cpu.eflags, DIRECTION_BIT) {
      MergeBit(s.cpu.eflags, ARITHMETIC, FlagWord(st), DIRECTION_BIT);
      MaskBit(DIRECTION_BIT);
    }
  }

  /** After `k` iterations the index registers have moved `k` elements in the direction of travel. */
  lemma {:induction false} PointersMove(s: MState, p: Plan, k: nat)
    requires After(s, p, k).Ok?
    ensures var t := After(s, p, k).value;
            && Reg(t, Esi) == (if MovesSource(p) then WrapAdd(Reg(s, Esi), k * Delta(s, p)) else Reg(s, Esi))
            && Reg(t, Edi) == (if MovesDestination(p) then WrapAdd(Reg(s, Edi), k * Delta(s, p)) else Reg(s, Edi))
            && Delta(t, p) == Delta(s, p)
            && (!p.Conditional() ==> t.cpu.eflags == s.cpu.eflags)
  {
    hide Element, WrapAdd, Bit, MovesSource, MovesDestination;
    if k == 0 {
      WrapZero(Reg(s, Esi)); WrapZero(Reg(s, Edi));
    } else {
      PointersMove(s, p, k - 1);
      var t := After(s, p, k - 1).value;
      ElementMoves(t, p);
      var d := Delta(s, p);
      WrapSum(Reg(s, Esi), (k - 1) * d, d);
      WrapSum(Reg(s, Edi), (k - 1) * d, d);
      assert (k - 1) * d + d == k * d;
    }
  }

  /** The address element `j` of a string starting at `s` is read from. */
  function SourceAt(s: MState, p: Plan, j: nat): u32 { WrapAdd(p.sourceBase, WrapAdd(Reg(s, Esi), j * Delta(s, p))) }

  /** The address element `j` is stored to or compared at. */
  function DestinationAt(s: MState, p: Plan, j: nat): u32 { WrapAdd(p.destinationBase, WrapAdd(Reg(s, Edi), j * Delta(s, p))) }
}
