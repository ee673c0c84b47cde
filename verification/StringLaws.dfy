/**
 String instructions in their own terms (exec.rs, `string_op`): the plan an
 instruction's fields name, the addresses its elements have, the flags a
 comparison of two elements leaves, and what the accumulator holds.
 */
module StringLaws {
  import opened Words
  import opened Bits
  import opened GuestCpu
  import opened Iced
  import opened AluFlags
  import opened GuestMemory
  import opened Tier0
  import opened StringOps
  import opened StringMemory
  import opened OperandLaws
  import opened StepLaws
  import opened MoveLaws

  // --- the plan and its addresses ---------------------------------------------------------

  /** What the mnemonic and the operands make the operation. */
  predicate KindIs(i: Instruction, kind: StringKind) {
    match kind
    case SMovs => i.mnemonic == Movs && i.Op(0) == MemoryESEDI && i.Op(1) == MemorySegESI
    case SStos => i.mnemonic == Stos && i.Op(0) == MemoryESEDI
    case SLods => i.mnemonic == Lods && i.Op(1) == MemorySegESI
    case SScas => i.mnemonic == Scas && i.Op(1) == MemoryESEDI
    case SCmps => i.mnemonic == Cmps && i.Op(0) == MemorySegESI && i.Op(1) == MemoryESEDI
  }

  /** The plan of an instruction whose source segment is the `k`th. */
  predicate PlanOf(cpu: CpuState, i: Instruction, k: nat, p: Plan)
    requires k < 6
  {
    && KindIs(i, p.kind) && p.w.Bytes() == i.width && p.repeated == (i.rep || i.repne) && p.repne == i.repne
    && p.sourceBase == cpu.segments[k] && p.destinationBase == cpu.segments[0]
  }

  /** Exactly the instructions with such a plan are accepted. */
  lemma PlanMeans(cpu: CpuState, i: Instruction, k: nat, p: Plan)
    requires k < 6 && i.memory.segment == SegmentNamed(k)
    ensures MakePlan(cpu, i) == Ok(p) <==> PlanOf(cpu, i, k, p)
  {
    hide SegmentBase, WidthOfBytes;
    SegmentMeans(cpu, k);
    WidthNamed(i.width, p.w);
  }

  lemma WidthNamed(bytes: nat, w: Width)
    ensures WidthOfBytes(bytes) == Some(w) <==> w.Bytes() == bytes
    ensures WidthOfBytes(bytes).None? ==> forall v: Width :: v.Bytes() != bytes
  {}

  /** How far one element is from the next: down when the direction flag, bit ten, is set. */
  function Stride(eflags: u32, w: Width): int { if Bit(eflags, 10) then 0 - w.Bytes() else w.Bytes() }

  lemma StrideIs(s: MState, p: Plan)
    ensures Delta(s, p) == Stride(s.cpu.eflags, p.w)
  {}

  /** Element `j` is `j` strides from the segment base plus ESI, or plus EDI, modulo 2^32. */
  lemma AddressesMean(s: MState, i: Instruction, k: nat, p: Plan, j: nat)
    requires k < 6 && PlanOf(s.cpu, i, k, p)
    ensures SourceAt(s, p, j) == (s.cpu.segments[k] + s.cpu.gpr[6] + j * Stride(s.cpu.eflags, p.w)) % TWO32
    ensures DestinationAt(s, p, j) == (s.cpu.segments[0] + s.cpu.gpr[7] + j * Stride(s.cpu.eflags, p.w)) % TWO32
  {
    hide Bit, WrapAdd, KindIs, Delta, Stride;
    var d := j * Delta(s, p);
    StrideIs(s, p);
    InnerWrap(p.sourceBase, s.cpu.gpr[6], d);
    InnerWrap(p.destinationBase, s.cpu.gpr[7], d);
  }

  lemma InnerWrap(a: u32, b: u32, d: int)
    ensures WrapAdd(a, WrapAdd(b, d)) == (a + b + d) % TWO32
  {
    DivMod(b + d, TWO32);
    var q := (b + d) / TWO32;
    DivMod(a + (b + d) % TWO32, TWO32);
    DivUnique(a + b + d, TWO32, q + (a + (b + d) % TWO32) / TWO32, (a + (b + d) % TWO32) % TWO32);
  }

  /** The accumulator is the low part of EAX. */
  lemma AccumulatorMeans(s: MState, w: Width)
    ensures AccumulatorValue(s, w) == s.cpu.gpr[0] % w.Modulus()
  {}

  // --- comparisons ----------------------------------------------------------------------------

  /** The operands of element `j`, in order: accumulator or source first, destination second. */
  ghost predicate Compared(s: MState, p: Plan, j: nat, a: u32, b: u32) {
    && (if p.kind.SScas? then a == s.cpu.gpr[0] % p.w.Modulus() else LoadWidth(s.memory, SourceAt(s, p, j), p.w) == Ok(a))
    && LoadWidth(s.memory, DestinationAt(s, p, j), p.w) == Ok(b)
  }

  /** The flags are those of comparing two numbers, whatever they were before. */
  ghost predicate ComparedFlags(before: u32, after: u32, a: u32, b: u32, w: Width) {
    && FlagsLeft(before, after, DifferenceStatus(a, b, 0, w), true)
    && forall code :: Relational(code) ==> ConditionMet(after, code) == Relation(code, a, b, SignExtend(a, w), SignExtend(b, w))
  }

  lemma DifferenceCompares(before: u32, after: u32, a: u32, b: u32, w: Width)
    requires a < w.Modulus() && b < w.Modulus() && FlagsLeft(before, after, DifferenceStatus(a, b, 0, w), true)
    ensures ComparedFlags(before, after, a, b, w)
  {
    hide FlagsLeft, DifferenceStatus, ConditionMet, Relation, SignExtend, Asks;
    forall code | Relational(code) ensures ConditionMet(after, code) == Relation(code, a, b, SignExtend(a, w), SignExtend(b, w)) {
      ConditionOf(before, after, DifferenceStatus(a, b, 0, w), true, code);
      ComparesAs(a, b, w, code);
    }
  }

  /** One comparison. */
  lemma ElementCompares(s: MState, p: Plan, t: MState) returns (a: u32, b: u32)
    requires p.Conditional() && Element(s, p) == Ok(t)
    ensures Compared(s, p, 0, a, b) && ComparedFlags(s.cpu.eflags, t.cpu.eflags, a, b, p.w)
  {
    hide FlagsLeft, DifferenceStatus, ComparedFlags, LoadWidth, SubBits, MergeFlags, FlagWord, Mask, WrapAdd, Delta;
    FirstElement(s, p);
    AccumulatorMeans(s, p.w);
    MaskBound(s.cpu.gpr[0], p.w);
    a := if p.kind.SScas? then AccumulatorValue(s, p.w) else LoadWidth(s.memory, SourceOf(s, p), p.w).value;
    b := LoadWidth(s.memory, DestinationOf(s, p), p.w).value;
    DifferenceNumber(a, b, false, p.w);
    ArithmeticLeft(s.cpu.eflags, DifferenceStatus(a, b, 0, p.w));
    DifferenceCompares(s.cpu.eflags, t.cpu.eflags, a, b, p.w);
  }

  lemma FirstElement(s: MState, p: Plan)
    ensures SourceAt(s, p, 0) == SourceOf(s, p) && DestinationAt(s, p, 0) == DestinationOf(s, p)
  {
    hide WrapAdd, Delta;
    WrapZero(Reg(s, Esi));
    WrapZero(Reg(s, Edi));
    assert 0 * Delta(s, p) == 0;
  }

  /** After `j + 1` iterations of SCAS or CMPS every relational condition is that of element `j`. */
  lemma IterationCompares(s: MState, p: Plan, j: nat) returns (a: u32, b: u32)
    requires p.Conditional() && After(s, p, j + 1).Ok?
    ensures After(s, p, j).Ok? && Compared(s, p, j, a, b)
    ensures ComparedFlags(After(s, p, j).value.cpu.eflags, After(s, p, j + 1).value.cpu.eflags, a, b, p.w)
  {
    var t := After(s, p, j).value;
    hide ComparedFlags, LoadWidth, Element, WrapAdd, Delta, Bit;
    ScanKeeps(s, p, j);
    PointersMove(s, p, j);
    FirstElement(t, p);
    a, b := ElementCompares(t, p, Element(t, p).value);
    assert SourceOf(t, p) == (if p.kind.SCmps? then SourceAt(s, p, j) else SourceOf(t, p));
  }

  /**
   A repeated SCAS or CMPS that completed an element leaves the conditions of
   the last one it compared, and one that completed none leaves the flags.
   */
  lemma RepeatCompares(s: MState, p: Plan) returns (a: u32, b: u32)
    requires p.Conditional()
    ensures Completed(s, p) == 0 ==> RepSpec(s, p).state.cpu.eflags == s.cpu.eflags
    ensures Completed(s, p) > 0 ==>
              && Compared(s, p, Completed(s, p) - 1, a, b)
              && forall code :: Relational(code) ==>
                   ConditionMet(RepSpec(s, p).state.cpu.eflags, code) == Relation(code, a, b, SignExtend(a, p.w), SignExtend(b, p.w))
  {
    hide Compared, FlagsLeft, DifferenceStatus, ConditionMet, Relation, SignExtend, RepSpec, Completed, Iteration;
    RepTrace(s, p);
    if Completed(s, p) > 0 {
      a, b := IterationCompares(s, p, Completed(s, p) - 1);
    } else {
      a, b := 0, 0;
    }
  }

  /** The whole instruction, stepped until EIP moves: the conditions it leaves are those of its last comparison. */
  lemma StringCompares(s: MState, i: Instruction, p: Plan, t: MState) returns (last: nat, a: u32, b: u32)
    requires i.len > 0 && MakePlan(s.cpu, i) == Ok(p) && p.Conditional() && StepUntilMoved(s, i) == RepResult.Finished(t)
    requires p.repeated ==> Completed(s, p) > 0
    ensures last + 1 == (if p.repeated then Completed(s, p) else 1) && Compared(s, p, last, a, b)
    ensures forall code :: Relational(code) ==> ConditionMet(t.cpu.eflags, code) == Relation(code, a, b, SignExtend(a, p.w), SignExtend(b, p.w))
  {
    hide Compared, FlagsLeft, DifferenceStatus, ConditionMet, Relation, SignExtend, RepSpec, Completed, Element, StepUntilMoved, MakePlan;
    if p.repeated {
      last := Completed(s, p) - 1;
      ChunkingRefines(s, i);
      a, b := RepeatCompares(s, p);
    } else {
      last := 0;
      SingleElement(s, i);
      a, b := ElementCompares(s, p, Element(s, p).value);
    }
  }

  // --- LODS ---------------------------------------------------------------------------------------

  /** EAX holds the element at the width, and its upper part as it was. */
  predicate Accumulates(before: u32, after: u32, w: Width, value: u32) {
    after % w.Modulus() == value && after / w.Modulus() == before / w.Modulus()
  }

  lemma WithAccumulatorIs(s: MState, w: Width, value: u32)
    requires value < w.Modulus()
    ensures Accumulates(s.cpu.gpr[0], WithAccumulator(s, w, value).cpu.gpr[0], w, value)
    ensures WithAccumulator(s, w, value) == SetReg(s, Eax, WithAccumulator(s, w, value).cpu.gpr[0])
  {
    match w
    case Byte => DivUnique(s.cpu.gpr[0] / 0x100 * 0x100 + value, 0x100, s.cpu.gpr[0] / 0x100, value);
    case Word => DivUnique(s.cpu.gpr[0] / 0x1_0000 * 0x1_0000 + value, 0x1_0000, s.cpu.gpr[0] / 0x1_0000, value);
    case Dword =>
  }

  /** After `k + 1` iterations of LODS the accumulator is element `k`, and memory and the rest of EAX are as they were. */
  lemma {:induction false} LodsLoads(s: MState, p: Plan, k: nat) returns (value: u32)
    requires p.kind.SLods? && After(s, p, k + 1).Ok?
    ensures LoadWidth(s.memory, SourceAt(s, p, k), p.w) == Ok(value)
    ensures Accumulates(s.cpu.gpr[0], After(s, p, k + 1).value.cpu.gpr[0], p.w, value)
    ensures After(s, p, k + 1).value.memory == s.memory && After(s, p, k + 1).value.cpu.eflags == s.cpu.eflags
  {
    var t := After(s, p, k).value;
    var u := Iteration(t, p).value;
    hide LoadWidth, Iteration, WrapAdd, Delta, Bit, Accumulates;
    value := IterationLoads(t, p, u);
    PointersMove(s, p, k);
    PointersMove(s, p, k + 1);
    if k > 0 {
      var before := LodsLoads(s, p, k - 1);
      Accumulated(s.cpu.gpr[0], t.cpu.gpr[0], u.cpu.gpr[0], p.w, before, value);
    }
  }

  lemma IterationLoads(s: MState, p: Plan, t: MState) returns (value: u32)
    requires p.kind.SLods? && Iteration(s, p) == Ok(t)
    ensures LoadWidth(s.memory, SourceOf(s, p), p.w) == Ok(value)
    ensures Accumulates(s.cpu.gpr[0], t.cpu.gpr[0], p.w, value) && t.memory == s.memory
  {
    hide LoadWidth, Element, Accumulates, SourceOf;
    value := ElementLoads(s, p, Element(s, p).value);
  }

  lemma Accumulated(a: u32, b: u32, c: u32, w: Width, x: u32, y: u32)
    requires Accumulates(a, b, w, x) && Accumulates(b, c, w, y)
    ensures Accumulates(a, c, w, y)
  {}

  lemma ElementLoads(s: MState, p: Plan, t: MState) returns (value: u32)
    requires p.kind.SLods? && Element(s, p) == Ok(t)
    ensures LoadWidth(s.memory, SourceOf(s, p), p.w) == Ok(value)
    ensures Accumulates(s.cpu.gpr[0], t.cpu.gpr[0], p.w, value) && t.memory == s.memory
  {
    hide LoadWidth, WrapAdd, Delta, Accumulates, WithAccumulator, SourceOf;
    value := LoadWidth(s.memory, SourceOf(s, p), p.w).value;
    WithAccumulatorIs(s, p.w, value);
  }

  /** The whole instruction: EAX holds the last element loaded. */
  lemma StringLoads(s: MState, i: Instruction, p: Plan, t: MState) returns (last: nat, value: u32)
    requires i.len > 0 && MakePlan(s.cpu, i) == Ok(p) && p.kind.SLods? && StepUntilMoved(s, i) == RepResult.Finished(t)
    requires p.repeated ==> s.cpu.gpr[1] > 0
    ensures last + 1 == (if p.repeated then s.cpu.gpr[1] else 1) && LoadWidth(s.memory, SourceAt(s, p, last), p.w) == Ok(value)
    ensures Accumulates(s.cpu.gpr[0], t.cpu.gpr[0], p.w, value) && t.memory == s.memory
  {
    hide Accumulates, LoadWidth, RepSpec, Completed, Element, StepUntilMoved, MakePlan, Iteration, Delta;
    if p.repeated {
      ChunkingRefines(s, i);
      RepTrace(s, p);
      last := s.cpu.gpr[1] - 1;
      value := LodsLoads(s, p, last);
    } else {
      last := 0;
      SingleElement(s, i);
      FirstElement(s, p);
      value := ElementLoads(s, p, Element(s, p).value);
    }
  }

  // --- registers --------------------------------------------------------------------------------------

  /** The registers `k` iterations leave: the count and the index registers moved on, and EAX only by loading. */
  ghost predicate MovedOn(s: MState, p: Plan, k: nat, t: MState) {
    var d := k * Stride(s.cpu.eflags, p.w);
    && t.cpu == s.cpu.(gpr := t.cpu.gpr, eflags := t.cpu.eflags)
    && t.cpu.gpr[1] == (s.cpu.gpr[1] - k) % TWO32 && t.cpu.gpr[2..6] == s.cpu.gpr[2..6]
    && (!p.kind.SLods? ==> t.cpu.gpr[0] == s.cpu.gpr[0])
    && t.cpu.gpr[6] == (if p.kind in {SMovs, SLods, SCmps} then (s.cpu.gpr[6] + d) % TWO32 else s.cpu.gpr[6])
    && t.cpu.gpr[7] == (if p.kind in {SMovs, SStos, SScas, SCmps} then (s.cpu.gpr[7] + d) % TWO32 else s.cpu.gpr[7])
    && (p.kind in {SMovs, SStos, SLods} ==> t.cpu.eflags == s.cpu.eflags)
    && (p.kind in {SLods, SScas, SCmps} ==> t.memory == s.memory)
  }

  /** Nothing else moves, however many iterations there were. */
  lemma {:induction false} RegistersMoveOn(s: MState, p: Plan, k: nat)
    requires After(s, p, k).Ok?
    ensures MovedOn(s, p, k, After(s, p, k).value)
  {
    hide Element, Bit, WrapAdd, Delta, Stride, After;
    PointersMove(s, p, k);
    StrideIs(s, p);
    WrapIs(s.cpu.gpr[6], k * Stride(s.cpu.eflags, p.w));
    WrapIs(s.cpu.gpr[7], k * Stride(s.cpu.eflags, p.w));
    KeptOn(s, p, k);
  }

  lemma {:induction false} KeptOn(s: MState, p: Plan, k: nat)
    requires After(s, p, k).Ok?
    ensures var t := After(s, p, k).value;
            && t.cpu == s.cpu.(gpr := t.cpu.gpr, eflags := t.cpu.eflags) && t.cpu.gpr[2..6] == s.cpu.gpr[2..6]
            && t.cpu.gpr[1] == (s.cpu.gpr[1] - k) % TWO32 && (!p.kind.SLods? ==> t.cpu.gpr[0] == s.cpu.gpr[0])
            && (p.kind in {SLods, SScas, SCmps} ==> t.memory == s.memory)
  {
    hide Element;
    if k > 0 {
      KeptOn(s, p, k - 1);
      var t := After(s, p, k - 1).value;
      ElementKeeps(t, p, Element(t, p).value);
      WrapSum(s.cpu.gpr[1], 0 - (k - 1), -1);
    }
  }

  lemma ElementKeeps(s: MState, p: Plan, t: MState)
    requires Element(s, p) == Ok(t)
    ensures t.cpu == s.cpu.(gpr := t.cpu.gpr, eflags := t.cpu.eflags) && t.cpu.gpr[1..6] == s.cpu.gpr[1..6]
    ensures (!p.kind.SLods? ==> t.cpu.gpr[0] == s.cpu.gpr[0]) && (p.kind in {SLods, SScas, SCmps} ==> t.memory == s.memory)
  {
    hide LoadWidth, StoreWidth, SubBits, MergeFlags, FlagWord, Mask, WrapAdd, Delta, ReplaceLow;
  }

  /** Without a repeat prefix one step is a first iteration that does not count. */
  lemma SingleIsFirst(s: MState, i: Instruction, p: Plan, t: MState)
    requires MakePlan(s.cpu, i) == Ok(p) && !p.repeated && StringStep(s, i) == RepResult.Finished(t)
    ensures After(s, p, 1).Ok?
    ensures var u := After(s, p, 1).value;
            t == MState(u.cpu.(gpr := u.cpu.gpr[1 := s.cpu.gpr[1]], eip := (s.cpu.eip + i.len) % TWO32, tsc := (s.cpu.tsc + 1) % TWO64), u.memory)
  {
    hide MakePlan, Element;
    var e := Element(s, p).value;
    ElementKeepsCount(s, p);
    assert After(s, p, 0) == Ok(s);
    assert e.cpu.gpr == e.cpu.gpr[1 := WrapSub(e.cpu.gpr[1], 1)][1 := s.cpu.gpr[1]];
  }
}
