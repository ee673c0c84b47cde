/**
 The accounting behind page generations (access.rs, software.rs): whoever
 changes a byte of physical RAM counts a write against its page. Every guest
 store keeps the account, and so does every instruction the interpreter runs.
 */
module WriteAccounting {
  import opened Words
  import opened Bits
  import opened GuestCpu
  import opened Iced
  import opened AluFlags
  import opened Rotates
  import opened GuestMemory
  import opened Tier0
  import opened StringOps

  /** A physical page holds the same bytes in both spaces. */
  ghost predicate SamePage(s: Space, t: Space, page: PhysicalPage) {
    forall k :: 0 <= k < |s.physical| && k < |t.physical| && k / PAGE == page ==> s.physical[k] == t.physical[k]
  }

  /** No page lost a write, and a page without new writes holds its old bytes. */
  ghost predicate Accounted(s: Space, t: Space) {
    && |s.physical| == |t.physical|
    && forall page: PhysicalPage ::
         s.Writes(page) <= t.Writes(page) && (s.Writes(page) == t.Writes(page) ==> SamePage(s, t, page))
  }

  lemma AccountedReflexive(s: Space)
    ensures Accounted(s, s)
  {}

  lemma AccountedTransitive(s: Space, t: Space, u: Space)
    requires Accounted(s, t) && Accounted(t, u)
    ensures Accounted(s, u)
  {
    forall page: PhysicalPage
      ensures s.Writes(page) <= u.Writes(page) && (s.Writes(page) == u.Writes(page) ==> SamePage(s, u, page))
    {
      assert s.Writes(page) <= t.Writes(page) <= u.Writes(page);
    }
  }

  /** Mapping, protecting and unmapping leave RAM and its write counts alone. */
  lemma RemapAccounts(s: Space, table: map<nat, Descriptor>)
    ensures Accounted(s, s.(table := table))
  {
    var t := s.(table := table);
    assert forall page: PhysicalPage :: s.Writes(page) == t.Writes(page);
  }

  // --- guest stores ------------------------------------------------------------

  /** The RAM page behind a virtual page, when a write to it would count. */
  function CountedPage(s: Space, page: nat): Option<PhysicalPage> {
    var d := s.Get(page);
    if d.valid && d.kind == Ram then Some(d.physicalPage) else None
  }

  /** Bumping a range counts every RAM page behind it, and at most once per virtual page. */
  lemma {:induction false} BumpCounts(s: Space, first: nat, last: nat, page: PhysicalPage)
    ensures s.Writes(page) <= s.Bump(first, last).Writes(page)
    ensures first <= last + 1 ==> s.Bump(first, last).Writes(page) <= s.Writes(page) + (last + 1 - first)
    ensures forall v :: first <= v <= last && CountedPage(s, v) == Some(page) ==>
              s.Writes(page) < s.Bump(first, last).Writes(page)
    decreases last + 1 - first
  {
    if first <= last {
      var d := s.Get(first);
      var bumped := if d.valid && d.kind == Ram then s.(writes := s.writes[d.physicalPage := s.Writes(d.physicalPage) + 1]) else s;
      BumpCounts(bumped, first + 1, last, page);
      assert forall v: nat :: CountedPage(bumped, v) == CountedPage(s, v);
    }
  }

  lemma {:induction false} PutFrame(physical: seq<u8>, cells: seq<nat>, data: seq<u8>, k: nat)
    requires |cells| == |data| && forall i :: 0 <= i < |cells| ==> cells[i] < |physical|
    requires k < |physical| && k !in cells
    ensures Put(physical, cells, data)[k] == physical[k]
    decreases |data|
  {
    if data != [] {
      assert k !in cells[1..] && cells[0] in cells;
      PutFrame(physical[cells[0] := data[0]], cells[1..], data[1..], k);
    }
  }

  /** The page a translated byte lies in is counted by a write to it. */
  lemma TranslatedPage(s: Space, address: u32, access: Access)
    requires s.Translate(address, access).Ok?
    ensures s.Get(address / PAGE).kind == Ram
    ensures CountedPage(s, address / PAGE) == Some(s.Get(address / PAGE).physicalPage)
    ensures s.Translate(address, access).value / PAGE == s.Get(address / PAGE).physicalPage
  {}

  /** A guest store counts a write against every page it changes a byte of. */
  lemma StoreAccounts(s: Space, address: u32, data: seq<u8>)
    requires s.Store(address, data).Ok?
    ensures Accounted(s, s.Store(address, data).value)
  {
    if data == [] { return; }
    var t := s.Store(address, data).value;
    var first, last := address / PAGE, (address + |data| - 1) / PAGE;
    StoreFacts(s, address, data);
    var cells := s.TranslateAll(address, |data|, WriteAccess).value;
    var written := s.(physical := Put(s.physical, cells, data));
    assert t == written.Bump(first, last);
    forall page: PhysicalPage
      ensures s.Writes(page) <= t.Writes(page) && (s.Writes(page) == t.Writes(page) ==> SamePage(s, t, page))
    {
      BumpCounts(written, first, last, page);
      assert s.Writes(page) == written.Writes(page);
      if s.Writes(page) == t.Writes(page) { UntouchedPage(s, address, data, page); }
    }
  }

  /** A page the store did not count lies behind none of its bytes. */
  lemma UntouchedPage(s: Space, address: u32, data: seq<u8>, page: PhysicalPage)
    requires data != [] && s.Store(address, data).Ok?
    requires s.Writes(page) == s.Store(address, data).value.Writes(page)
    ensures SamePage(s, s.Store(address, data).value, page)
  {
    var t := s.Store(address, data).value;
    var first, last := address / PAGE, (address + |data| - 1) / PAGE;
    StoreFacts(s, address, data);
    var cells := s.TranslateAll(address, |data|, WriteAccess).value;
    var written := s.(physical := Put(s.physical, cells, data));
    BumpCounts(written, first, last, page);
    assert s.Writes(page) == written.Writes(page);
    forall i | 0 <= i < |cells| ensures cells[i] / PAGE != page {
      TranslateAt(s, address, |data|, WriteAccess, i);
      TranslatedPage(s, address + i, WriteAccess);
      var v := (address + i) / PAGE;
      assert first <= v <= last;
      assert CountedPage(written, v) == CountedPage(s, v);
    }
    forall k | 0 <= k < |s.physical| && k / PAGE == page ensures s.physical[k] == t.physical[k] {
      PutFrame(s.physical, cells, data, k);
    }
  }

  // --- every instruction ----------------------------------------------------------

  /** Guest writes: the change is accounted for, and the page table is as it was. */
  ghost predicate Wrote(s: Space, t: Space) {
    Accounted(s, t) && s.table == t.table
  }

  lemma WroteReflexive(s: Space)
    ensures Wrote(s, s)
  {
    hide Accounted;
    AccountedReflexive(s);
  }

  lemma WroteTransitive(s: Space, t: Space, u: Space)
    requires Wrote(s, t) && Wrote(t, u)
    ensures Wrote(s, u)
  {
    hide Accounted;
    AccountedTransitive(s, t, u);
  }

  /** What an instruction does to memory is guest writes. */
  ghost predicate Kept(s: MState, o: Outcome) {
    o.Ok? ==> Wrote(s.memory, o.value.memory)
  }

  lemma StoreWidthAccounts(s: Space, address: u32, w: Width, value: u32)
    requires StoreWidth(s, address, w, value).Ok?
    ensures Wrote(s, StoreWidth(s, address, w, value).value)
  {
    hide Accounted;
    StoreAccounts(s, address, Le(value, w.Bytes()));
  }

  lemma WriteAtAccounts(s: MState, location: Location, w: Width, value: u32)
    ensures Kept(s, WriteAt(s, location, w, value))
  {
    hide Wrote, StoreWidth;
    WroteReflexive(s.memory);
    if location.InMemory? && StoreWidth(s.memory, location.address, w, value).Ok? {
      StoreWidthAccounts(s.memory, location.address, w, value);
    }
  }

  lemma PushAccounts(s: MState, w: Width, value: u32)
    ensures Kept(s, PushValue(s, w, value))
  {
    hide Wrote, StoreWidth;
    var esp := WrapSub(Reg(s, Esp), w.Bytes());
    if StoreWidth(s.memory, esp, w, value).Ok? { StoreWidthAccounts(s.memory, esp, w, value); }
  }

  /** Two writes in a row. */
  lemma WriteTwiceAccounts(s: MState, first: Location, second: Location, w: Width, a: u32, b: u32)
    requires WriteAt(s, first, w, a).Ok?
    ensures Kept(s, WriteAt(WriteAt(s, first, w, a).value, second, w, b))
  {
    hide Wrote, WriteAt;
    var t := WriteAt(s, first, w, a).value;
    WriteAtAccounts(s, first, w, a);
    WriteAtAccounts(t, second, w, b);
    if WriteAt(t, second, w, b).Ok? { WroteTransitive(s.memory, t.memory, WriteAt(t, second, w, b).value.memory); }
  }

  /** The two facts every instruction's proof rests on, for all states. */
  lemma EveryWrite()
    ensures forall s: MState, location, w, value :: Kept(s, WriteAt(s, location, w, value))
    ensures forall s: MState :: Wrote(s.memory, s.memory)
  {
    hide Wrote, WriteAt;
    forall s: MState, location, w, value ensures Kept(s, WriteAt(s, location, w, value)) {
      WriteAtAccounts(s, location, w, value);
    }
    forall s: MState ensures Wrote(s.memory, s.memory) { WroteReflexive(s.memory); }
  }

  lemma ArithmeticAccounts(s: MState, i: Instruction)
    ensures Kept(s, BinaryAlu(s, i)) && Kept(s, Unary(s, i))
  {
    hide Wrote, WriteAt, ReadAt, Locate, OperandWidth, Alu, ResultBits, Mask, MergeFlags, FlagWord, BitNot;
    EveryWrite();
  }

  lemma MovesAccount(s: MState, i: Instruction, signed: bool)
    ensures Kept(s, MovSpec(s, i)) && Kept(s, Widen(s, i, signed)) && Kept(s, LeaSpec(s, i))
    ensures Kept(s, SetccSpec(s, i)) && Kept(s, CmovSpec(s, i))
  {
    hide Wrote, WriteAt, ReadAt, Locate, OperandWidth, EffectiveAddress, ConditionMet;
    EveryWrite();
  }

  lemma ExchangesAccount(s: MState, i: Instruction)
    ensures Kept(s, XchgSpec(s, i)) && Kept(s, XaddSpec(s, i))
  {
    hide Wrote, WriteAt, ReadAt, Locate, OperandWidth, ResultBits, Mask, MergeFlags, FlagWord;
    EveryTwice();
  }

  lemma EveryTwice()
    ensures forall s: MState, first, second, w, a, b
              {:trigger WriteAt(WriteAt(s, first, w, a).value, second, w, b)} :: WriteAt(s, first, w, a).Ok? ==>
              Kept(s, WriteAt(WriteAt(s, first, w, a).value, second, w, b))
  {
    hide Wrote, WriteAt;
    forall s: MState, first, second, w, a, b | WriteAt(s, first, w, a).Ok?
      ensures Kept(s, WriteAt(WriteAt(s, first, w, a).value, second, w, b))
    {
      WriteTwiceAccounts(s, first, second, w, a, b);
    }
  }

  lemma CmpxchgAccounts(s: MState, i: Instruction)
    ensures Kept(s, CmpxchgSpec(s, i))
  {
    hide Wrote, WriteAt, ReadAt, ReadRegister, Locate, OperandWidth, SubBits, MergeFlags, FlagWord;
    EveryWrite();
    EveryTwice();
  }

  lemma Cmpxchg8bAccounts(s: MState, i: Instruction)
    ensures Kept(s, Cmpxchg8bSpec(s, i))
  {
    hide Accounted, EffectiveAddress, MergeFlags, FlagWord, Le32, FromLe32;
    if Cmpxchg8bSpec(s, i).Ok? {
      var location := EffectiveAddress(s.cpu, i.memory, true).value;
      var current := s.memory.Load(location, 8, ReadAccess).value;
      if s.memory.Store(location, current).Ok? { StoreAccounts(s.memory, location, current); }
      var replacement := Le32(Reg(s, Ebx)) + Le32(Reg(s, Ecx));
      if s.memory.Store(location, replacement).Ok? { StoreAccounts(s.memory, location, replacement); }
    }
  }

  lemma BitsAccount(s: MState, i: Instruction, kind: ShiftKind)
    ensures Kept(s, ShiftOp(s, i, kind)) && Kept(s, BitTestOp(s, i))
  {
    hide Wrote, WriteAt, ReadAt, Locate, OperandWidth, ShiftCount, ShiftSpec, BitLocation, BitUpdate, MergeFlags, FlagWord, Mask;
    EveryWrite();
  }

  lemma StackAccounts(s: MState, i: Instruction)
    ensures Kept(s, PushSpec(s, i)) && Kept(s, PopSpec(s, i)) && Kept(s, PopadSpec(s)) && Kept(s, LeaveSpec(s, i))
  {
    hide Wrote, WriteAt, Locate, OperandWidth, PushOperand, PushValue, LoadWidth, FrameWords;
    EveryWrite();
    if PushOperand(s, i).Ok? { PushAccounts(s, PushOperand(s, i).value.0, PushOperand(s, i).value.1); }
  }

  lemma PushadAccounts(s: MState)
    ensures Kept(s, PushadSpec(s))
  {
    hide Accounted, PushadFrame;
    var base := WrapSub(Reg(s, Esp), 32);
    if s.memory.Store(base, PushadFrame(s)).Ok? { StoreAccounts(s.memory, base, PushadFrame(s)); }
  }

  lemma BranchesAccount(s: MState, i: Instruction)
    ensures Kept(s, JmpSpec(s, i)) && Kept(s, CallSpec(s, i)) && Kept(s, RetSpec(s, i)) && Kept(s, JccSpec(s, i))
    ensures Kept(s, LoopSpec(s, i)) && Kept(s, JecxzSpec(s, i))
  {
    hide Wrote, BranchTarget, PushValue, LoadWidth, ConditionMet;
    WroteReflexive(s.memory);
    PushAccounts(s, Dword, Fallthrough(s, i));
  }

  /** Every instruction but a string one, whatever its operands, keeps the account. */
  lemma StepAccounts(s: MState, i: Instruction)
    ensures Kept(s, StepSpec(s, i))
  {
    hide Wrote, BinaryAlu, Unary, MovSpec, Widen, LeaSpec, SetccSpec, CmovSpec, XchgSpec, XaddSpec, CmpxchgSpec, Cmpxchg8bSpec,
         ShiftOp, BitTestOp, PushSpec, PopSpec, PushadSpec, PopadSpec, LeaveSpec, JmpSpec, CallSpec, RetSpec, JccSpec, LoopSpec, JecxzSpec;
    WroteReflexive(s.memory);
    ArithmeticAccounts(s, i);
    MovesAccount(s, i, true); MovesAccount(s, i, false);
    ExchangesAccount(s, i);
    CmpxchgAccounts(s, i);
    Cmpxchg8bAccounts(s, i);
    if KindOf(i.mnemonic).Some? { BitsAccount(s, i, KindOf(i.mnemonic).value); } else { BitsAccount(s, i, KShl); }
    StackAccounts(s, i);
    PushadAccounts(s);
    BranchesAccount(s, i);
  }

  // --- string instructions ------------------------------------------------------------

  lemma ElementAccounts(s: MState, p: Plan)
    ensures Kept(s, Element(s, p))
  {
    hide Wrote, LoadWidth, StoreWidth, SubBits, MergeFlags, FlagWord, Mask, WrapAdd, ReplaceLow;
    WroteReflexive(s.memory);
    var destination := DestinationOf(s, p);
    if p.kind.SStos? && StoreWidth(s.memory, destination, p.w, AccumulatorValue(s, p.w)).Ok? {
      StoreWidthAccounts(s.memory, destination, p.w, AccumulatorValue(s, p.w));
    }
    if p.kind.SMovs? && LoadWidth(s.memory, SourceOf(s, p), p.w).Ok? {
      var value := LoadWidth(s.memory, SourceOf(s, p), p.w).value;
      if StoreWidth(s.memory, destination, p.w, value).Ok? { StoreWidthAccounts(s.memory, destination, p.w, value); }
    }
  }

  lemma {:induction false} ChunkAccounts(s: MState, p: Plan, budget: nat)
    ensures Wrote(s.memory, Chunk(s, p, budget).state.memory)
    decreases budget
  {
    hide Wrote, Element, Stops;
    WroteReflexive(s.memory);
    if Reg(s, Ecx) != 0 && budget != 0 {
      match Iteration(s, p)
      case Err(_) =>
      case Ok(t) =>
        ElementAccounts(s, p);
        if !Stops(t, p) {
          ChunkAccounts(t, p, budget - 1);
          WroteTransitive(s.memory, t.memory, Chunk(t, p, budget - 1).state.memory);
        }
    }
  }

  /** A string step keeps the account, finished, paused or faulted. */
  lemma StringAccounts(s: MState, p: Plan, len: u8)
    ensures Wrote(s.memory, StepString(s, p, len).state.memory)
  {
    hide Wrote, Element, Chunk;
    WroteReflexive(s.memory);
    ElementAccounts(s, p);
    ChunkAccounts(s, p, MAX_REP_ITERATIONS_PER_STEP);
  }
}
