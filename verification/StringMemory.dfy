/**
 What repeated string instructions do to memory and where they stop, in closed
 form (exec.rs, `string_op`): STOS fills, MOVS copies, SCAS and CMPS end at the
 first element that decides them.
 */
module StringMemory {
  import opened Words
  import opened Bits
  import opened GuestCpu
  import opened Iced
  import opened AluFlags
  import opened GuestMemory
  import opened Tier0
  import opened StringOps
  import opened InstructionLaws

  // --- one store ------------------------------------------------------------------------

  /** The physical byte behind byte `b` of an access, if it may be reached. */
  function CellAt(memory: Space, address: u32, b: nat, access: Access): (r: Option<nat>)
    ensures r.Some? ==> r.value < |memory.physical| && r.value % PAGE == (address + b) % PAGE
  {
    if address + b >= TWO32 then None else
    match memory.Translate(address + b, access)
    case Ok(cell) => Some(cell)
    case Err(_) => None
  }

  lemma SameCell(a: Space, c: Space, address: u32, b: nat, access: Access)
    requires a.table == c.table && |a.physical| == |c.physical|
    ensures CellAt(a, address, b, access) == CellAt(c, address, b, access)
  {}

  lemma StoreKeeps(memory: Space, address: u32, w: Width, value: u32, after: Space)
    requires StoreWidth(memory, address, w, value) == Ok(after)
    ensures after.table == memory.table && |after.physical| == |memory.physical|
  {
    hide Le;
    StoreFacts(memory, address, Le(value, w.Bytes()));
  }

  /** The cells of a store: where its bytes go, one cell each. */
  lemma StoreCells(memory: Space, address: u32, w: Width, value: u32, after: Space) returns (cells: seq<nat>)
    requires StoreWidth(memory, address, w, value) == Ok(after)
    ensures |cells| == w.Bytes() && forall b :: 0 <= b < |cells| ==> CellAt(memory, address, b, WriteAccess) == Some(cells[b])
    ensures forall b, c :: 0 <= b < c < |cells| ==> cells[b] != cells[c]
    ensures forall b :: 0 <= b < |cells| ==> cells[b] < |memory.physical|
    ensures after.physical == Put(memory.physical, cells, Le(value, w.Bytes()))
  {
    hide Le, Put;
    var n := w.Bytes();
    StoreFacts(memory, address, Le(value, n));
    cells := memory.TranslateAll(address, n, WriteAccess).value;
    forall b | 0 <= b < n ensures CellAt(memory, address, b, WriteAccess) == Some(cells[b]) {
      TranslateAt(memory, address, n, WriteAccess, b);
    }
    forall b, c | 0 <= b < c < n ensures cells[b] != cells[c] { CellsDistinct(memory, address, n, WriteAccess, b, c); }
  }

  /** A store of a width leaves its bytes in its cells ... */
  lemma StoreWrites(memory: Space, address: u32, w: Width, value: u32, after: Space, b: nat)
    requires StoreWidth(memory, address, w, value) == Ok(after) && b < w.Bytes()
    ensures |after.physical| == |memory.physical| && CellAt(memory, address, b, WriteAccess).Some?
    ensures after.physical[CellAt(memory, address, b, WriteAccess).value] == Le(value, w.Bytes())[b]
  {
    hide StoreWidth, Le, Put, CellAt;
    StoreKeeps(memory, address, w, value, after);
    var cells := StoreCells(memory, address, w, value, after);
    PutGet(memory.physical, cells, Le(value, w.Bytes()), cells[b]);
  }

  /** ... and every other cell as it was. */
  lemma StoreFrames(memory: Space, address: u32, w: Width, value: u32, after: Space, x: nat)
    requires StoreWidth(memory, address, w, value) == Ok(after) && x < |memory.physical|
    requires forall b :: 0 <= b < w.Bytes() ==> CellAt(memory, address, b, WriteAccess) != Some(x)
    ensures |after.physical| == |memory.physical| && after.physical[x] == memory.physical[x]
  {
    hide StoreWidth, Le, Put, CellAt;
    StoreKeeps(memory, address, w, value, after);
    var cells := StoreCells(memory, address, w, value, after);
    assert x !in cells;
    PutGet(memory.physical, cells, Le(value, w.Bytes()), x);
  }

  /** No byte of a store is one of a load. */
  ghost predicate CellsApart(memory: Space, stored: u32, w: Width, loaded: u32, v: Width) {
    forall i, j :: 0 <= i < w.Bytes() && 0 <= j < v.Bytes() && CellAt(memory, stored, i, WriteAccess).Some? ==>
      CellAt(memory, stored, i, WriteAccess) != CellAt(memory, loaded, j, ReadAccess)
  }

  /** Writing one memory operand leaves another as it was, error included, when they share no physical byte. */
  lemma MemoryApart(s: MState, stored: u32, w: Width, value: u32, loaded: u32, v: Width)
    requires WriteAt(s, InMemory(stored), w, value).Ok? && CellsApart(s.memory, stored, w, loaded, v)
    ensures ReadAt(WriteAt(s, InMemory(stored), w, value).value, InMemory(loaded), v) == ReadAt(s, InMemory(loaded), v)
  {
    hide StoreWidth, LoadWidth, CellAt;
    var after := StoreWidth(s.memory, stored, w, value).value;
    StoreKeeps(s.memory, stored, w, value, after);
    forall j | 0 <= j < v.Bytes() && CellAt(s.memory, loaded, j, ReadAccess).Some?
      ensures CellAt(s.memory, loaded, j, ReadAccess).value < |s.memory.physical|
      ensures after.physical[CellAt(s.memory, loaded, j, ReadAccess).value] == s.memory.physical[CellAt(s.memory, loaded, j, ReadAccess).value]
    {
      CellInside(s.memory, loaded, j, ReadAccess);
      StoreFrames(s.memory, stored, w, value, after, CellAt(s.memory, loaded, j, ReadAccess).value);
    }
    SameLoads(s.memory, after, loaded, v);
  }

  lemma CellInside(memory: Space, address: u32, b: nat, access: Access)
    ensures CellAt(memory, address, b, access).Some? ==> CellAt(memory, address, b, access).value < |memory.physical|
  {}

  lemma SameLoads(a: Space, c: Space, address: u32, w: Width)
    requires a.table == c.table && |a.physical| == |c.physical|
    requires forall j :: 0 <= j < w.Bytes() && CellAt(a, address, j, ReadAccess).Some? ==>
               a.physical[CellAt(a, address, j, ReadAccess).value] == c.physical[CellAt(a, address, j, ReadAccess).value]
    ensures LoadWidth(a, address, w) == LoadWidth(c, address, w)
  {
    hide FromLe;
    var n := w.Bytes();
    if address + n <= TWO32 {
      SameTranslations(a, c, address, n, ReadAccess);
      if a.Load(address, n, ReadAccess).Ok? {
        forall i | 0 <= i < n ensures a.Load(address, n, ReadAccess).value[i] == c.Load(address, n, ReadAccess).value[i] {
          TranslateAt(a, address, n, ReadAccess, i);
          assert CellAt(a, address, i, ReadAccess).Some?;
        }
        assert a.Load(address, n, ReadAccess).value == c.Load(address, n, ReadAccess).value;
      }
    }
  }

  // --- storing kinds ------------------------------------------------------------------------

  predicate Stores(p: Plan) { p.kind.SStos? || p.kind.SMovs? }

  /** The value one element stores. */
  function StoredValue(s: MState, p: Plan): Result<u32, ExecError> {
    if p.kind.SMovs? then LoadWidth(s.memory, SourceOf(s, p), p.w) else Ok(AccumulatorValue(s, p.w))
  }

  lemma IterationStores(s: MState, p: Plan)
    requires Stores(p) && Iteration(s, p).Ok?
    ensures StoredValue(s, p).Ok?
    ensures StoreWidth(s.memory, DestinationOf(s, p), p.w, StoredValue(s, p).value) == Ok(Iteration(s, p).value.memory)
    ensures Iteration(s, p).value.cpu.gpr[0] == s.cpu.gpr[0]
  {
    hide LoadWidth, StoreWidth, WrapAdd, Mask, Delta, SourceOf, DestinationOf;
  }

  /** Storing kinds keep the page table, the size of RAM and the accumulator. */
  lemma {:induction false} StoresKeep(s: MState, p: Plan, k: nat)
    requires Stores(p) && After(s, p, k).Ok?
    ensures var t := After(s, p, k).value;
            t.memory.table == s.memory.table && |t.memory.physical| == |s.memory.physical| && t.cpu.gpr[0] == s.cpu.gpr[0]
  {
    hide Iteration, StoreWidth, StoredValue;
    if k > 0 {
      StoresKeep(s, p, k - 1);
      var t := After(s, p, k - 1).value;
      IterationStores(t, p);
      StoreKeeps(t.memory, DestinationOf(t, p), p.w, StoredValue(t, p).value, Iteration(t, p).value.memory);
    }
  }

  /** The physical byte that byte `b` of element `j` is stored to. */
  function WriteCell(s: MState, p: Plan, j: nat, b: nat): Option<nat> {
    CellAt(s.memory, DestinationAt(s, p, j), b, WriteAccess)
  }

  /** The physical byte that byte `b` of element `j` is loaded from. */
  function ReadCell(s: MState, p: Plan, j: nat, b: nat): Option<nat> {
    CellAt(s.memory, SourceAt(s, p, j), b, ReadAccess)
  }

  /** Iteration `k` as one store, at the address it has from the start. */
  lemma StepStores(s: MState, p: Plan, k: nat) returns (t: MState, u: MState, value: u32)
    requires Stores(p) && After(s, p, k + 1).Ok?
    ensures After(s, p, k) == Ok(t) && After(s, p, k + 1) == Ok(u)
    ensures StoredValue(t, p) == Ok(value)
    ensures StoreWidth(t.memory, DestinationAt(s, p, k), p.w, value) == Ok(u.memory)
    ensures t.memory.table == s.memory.table && |t.memory.physical| == |s.memory.physical| && t.cpu.gpr[0] == s.cpu.gpr[0]
    ensures p.kind.SMovs? ==> SourceOf(t, p) == SourceAt(s, p, k)
  {
    t, u := After(s, p, k).value, After(s, p, k + 1).value;
    assert Iteration(t, p) == Ok(u);
    hide Iteration, After, LoadWidth, StoreWidth, WrapAdd, Delta, Mask;
    StoresKeep(s, p, k);
    IterationStores(t, p);
    PointersMove(s, p, k);
    value := StoredValue(t, p).value;
  }

  /** Iteration `k` leaves its value's bytes in its cells ... */
  lemma StepWrites(s: MState, p: Plan, k: nat, b: nat) returns (t: MState, value: u32)
    requires Stores(p) && After(s, p, k + 1).Ok? && b < p.w.Bytes()
    ensures After(s, p, k) == Ok(t) && StoredValue(t, p) == Ok(value) && t.cpu.gpr[0] == s.cpu.gpr[0]
    ensures |After(s, p, k + 1).value.memory.physical| == |s.memory.physical| && WriteCell(s, p, k, b).Some?
    ensures After(s, p, k + 1).value.memory.physical[WriteCell(s, p, k, b).value] == Le(value, p.w.Bytes())[b]
  {
    hide After, StoreWidth, StoredValue, Le, CellAt, DestinationAt;
    var u;
    t, u, value := StepStores(s, p, k);
    SameCell(s.memory, t.memory, DestinationAt(s, p, k), b, WriteAccess);
    StoreWrites(t.memory, DestinationAt(s, p, k), p.w, value, u.memory, b);
  }

  /** ... and every other byte of RAM as it was. */
  lemma StepFrames(s: MState, p: Plan, k: nat, x: nat)
    requires Stores(p) && After(s, p, k + 1).Ok? && x < |s.memory.physical|
    requires forall b :: 0 <= b < p.w.Bytes() ==> WriteCell(s, p, k, b) != Some(x)
    ensures |After(s, p, k).value.memory.physical| == |After(s, p, k + 1).value.memory.physical| == |s.memory.physical|
    ensures After(s, p, k + 1).value.memory.physical[x] == After(s, p, k).value.memory.physical[x]
  {
    hide StoreWidth, StoredValue, CellAt, DestinationAt, Iteration;
    var t, u, value := StepStores(s, p, k);
    forall b | 0 <= b < p.w.Bytes() ensures CellAt(t.memory, DestinationAt(s, p, k), b, WriteAccess) != Some(x) {
      SameCell(s.memory, t.memory, DestinationAt(s, p, k), b, WriteAccess);
      assert WriteCell(s, p, k, b) != Some(x);
    }
    StoreFrames(t.memory, DestinationAt(s, p, k), p.w, value, u.memory, x);
  }

  // --- STOS ------------------------------------------------------------------------------------

  lemma MultipleOff(x: int, k: int, n: int)
    requires n > 0
    ensures (x + k * n) % n == x % n
  {
    DivMod(x, n);
    assert n * (x / n + k) == n * (x / n) + k * n;
    DivUnique(x + k * n, n, x / n + k, x % n);
  }

  lemma WrapKeepsUnit(a: u32, x: int, w: Width)
    ensures WrapAdd(a, x) % w.Bytes() == (a + x) % w.Bytes()
  {
    DivMod(a + x, TWO32);
    var k := (a + x) / TWO32;
    var n := w.Bytes();
    assert WrapAdd(a, x) == a + x + (0 - k * (TWO32 / n)) * n;
    MultipleOff(a + x, 0 - k * (TWO32 / n), n);
  }

  /** Elements are whole widths apart, so all are aligned alike. */
  lemma AlignedAlike(s: MState, p: Plan, j: nat)
    ensures DestinationAt(s, p, j) % p.w.Bytes() == (p.destinationBase + Reg(s, Edi)) % p.w.Bytes()
  {
    var n: int, d: int := p.w.Bytes(), Delta(s, p);
    var moved := WrapAdd(Reg(s, Edi), j * d);
    WrapKeepsUnit(Reg(s, Edi), j * d, p.w);
    WrapKeepsUnit(p.destinationBase, moved, p.w);
    assert d == n || d == -n;
    hide WrapAdd, Delta;
    var sign := if d == n then 1 else -1;
    assert j * d == (sign * j) * n;
    MultipleOff(Reg(s, Edi), sign * j, n);
    SameUnit(p.destinationBase, moved, Reg(s, Edi), n);
  }

  lemma SameUnit(a: int, x: int, y: int, n: int)
    requires n > 0 && x % n == y % n
    ensures (a + x) % n == (a + y) % n
  {
    DivMod(x, n);
    DivMod(y, n);
    var k := x / n - y / n;
    assert n * (x / n) - n * (y / n) == k * n;
    MultipleOff(a + y, k, n);
  }

  /** A physical byte two elements store to is the same byte of both. */
  lemma SamePlace(s: MState, p: Plan, j: nat, b: nat, l: nat, c: nat)
    requires b < p.w.Bytes() && c < p.w.Bytes()
    requires WriteCell(s, p, j, b).Some? && WriteCell(s, p, j, b) == WriteCell(s, p, l, c)
    ensures b == c
  {
    AlignedAlike(s, p, j);
    AlignedAlike(s, p, l);
    hide DestinationAt, WrapAdd, Delta;
    UnitOffset(DestinationAt(s, p, j), b, DestinationAt(s, p, l), c, p.w.Bytes());
  }

  lemma UnitOffset(d: nat, b: nat, e: nat, c: nat, n: nat)
    requires n in {1, 2, 4} && b < n && c < n && d % n == e % n && (d + b) % PAGE == (e + c) % PAGE
    ensures b == c
  {
    PageUnit(d + b, n);
    PageUnit(e + c, n);
    UnitCancel(d, b, e, c, n);
  }

  lemma PageUnit(x: nat, n: nat)
    requires n in {1, 2, 4}
    ensures x % n == x % PAGE % n
  {
    DivMod(x, PAGE);
    var q, r := x / PAGE, x % PAGE;
    if n == 1 { MultipleOff(r, q * 4096, 1); } else if n == 2 { MultipleOff(r, q * 2048, 2); } else { MultipleOff(r, q * 1024, 4); }
  }

  lemma UnitCancel(d: nat, b: nat, e: nat, c: nat, n: nat)
    requires b < n && c < n && d % n == e % n && (d + b) % n == (e + c) % n
    ensures b == c
  {
    DivMod(d, n);
    DivMod(e, n);
    DivMod(d + b, n);
    DivMod(e + c, n);
    var k := (d + b) / n - (e + c) / n - d / n + e / n;
    assert n * k == n * ((d + b) / n) - n * ((e + c) / n) - n * (d / n) + n * (e / n);
    SmallMultiple(n, k, b - c);
  }

  /**
   After `k` iterations of STOS, at any width and in either direction, every
   destination byte so far holds its byte of the accumulator, however the pages
   alias.
   */
  lemma {:induction false} StosFills(s: MState, p: Plan, k: nat, j: nat, b: nat)
    requires p.kind.SStos? && After(s, p, k).Ok? && j < k && b < p.w.Bytes()
    ensures WriteCell(s, p, j, b).Some? && |After(s, p, k).value.memory.physical| == |s.memory.physical|
    ensures After(s, p, k).value.memory.physical[WriteCell(s, p, j, b).value] == Le(AccumulatorValue(s, p.w), p.w.Bytes())[b]
    decreases k
  {
    var t, value := StepWrites(s, p, k - 1, b);
    hide Iteration, Le, Mask, CellAt, WriteCell;
    assert value == AccumulatorValue(s, p.w);
    if j < k - 1 {
      StosFills(s, p, k - 1, j, b);
      var x := WriteCell(s, p, j, b).value;
      WrittenInside(s, p, j, b);
      var last := k - 1;
      if WriteCell(s, p, last, b) != Some(x) {
        forall c | 0 <= c < p.w.Bytes() ensures WriteCell(s, p, last, c) != Some(x) {
          if WriteCell(s, p, last, c) == Some(x) { SamePlace(s, p, j, b, last, c); }
        }
        StepFrames(s, p, last, x);
      }
    }
  }

  lemma WrittenInside(s: MState, p: Plan, j: nat, b: nat)
    ensures WriteCell(s, p, j, b).Some? ==> WriteCell(s, p, j, b).value < |s.memory.physical|
    ensures ReadCell(s, p, j, b).Some? ==> ReadCell(s, p, j, b).value < |s.memory.physical|
  {
    hide DestinationAt, SourceAt;
  }

  // --- MOVS ------------------------------------------------------------------------------------------

  /** A byte no element so far stores to is as it was. */
  lemma {:induction false} StoresFrame(s: MState, p: Plan, k: nat, x: nat)
    requires Stores(p) && After(s, p, k).Ok? && x < |s.memory.physical|
    requires forall j, b :: 0 <= j < k && 0 <= b < p.w.Bytes() ==> WriteCell(s, p, j, b) != Some(x)
    ensures |After(s, p, k).value.memory.physical| == |s.memory.physical|
    ensures After(s, p, k).value.memory.physical[x] == s.memory.physical[x]
    decreases k
  {
    hide Iteration, WriteCell;
    if k > 0 {
      StoresFrame(s, p, k - 1, x);
      StepFrames(s, p, k - 1, x);
    }
  }

  /** No element loads a byte an earlier one stored, and no byte is stored twice. */
  ghost predicate LoadedFirst(s: MState, p: Plan, k: nat) {
    && (forall j, b, l, c :: 0 <= j < l < k && 0 <= b < p.w.Bytes() && 0 <= c < p.w.Bytes() && WriteCell(s, p, j, b).Some? ==>
          WriteCell(s, p, j, b) != ReadCell(s, p, l, c))
    && (forall j, b, l, c :: 0 <= j < l < k && 0 <= b < p.w.Bytes() && 0 <= c < p.w.Bytes() && WriteCell(s, p, j, b).Some? ==>
          WriteCell(s, p, j, b) != WriteCell(s, p, l, c))
  }

  /** A loaded width, byte by byte. */
  lemma LoadedBytes(memory: Space, address: u32, w: Width, b: nat)
    requires LoadWidth(memory, address, w).Ok? && b < w.Bytes()
    ensures CellAt(memory, address, b, ReadAccess).Some?
    ensures Le(LoadWidth(memory, address, w).value, w.Bytes())[b] == memory.physical[CellAt(memory, address, b, ReadAccess).value]
  {
    hide Le, FromLe;
    var n := w.Bytes();
    LoadIs(memory, address, n, ReadAccess);
    TranslateAt(memory, address, n, ReadAccess, b);
    LeOfFromLe(memory.Load(address, n, ReadAccess).value);
  }

  /** The value iteration `k` loads is the source element as it was at the start. */
  lemma LoadsOriginal(s: MState, p: Plan, k: nat, b: nat)
    requires p.kind.SMovs? && After(s, p, k + 1).Ok? && LoadedFirst(s, p, k + 1) && b < p.w.Bytes()
    ensures StoredValue(After(s, p, k).value, p).Ok? && ReadCell(s, p, k, b).Some?
    ensures ReadCell(s, p, k, b).value < |s.memory.physical|
    ensures Le(StoredValue(After(s, p, k).value, p).value, p.w.Bytes())[b] == s.memory.physical[ReadCell(s, p, k, b).value]
  {
    hide Iteration, Le, LoadWidth, StoreWidth, CellAt, DestinationAt, SourceAt, WriteCell;
    var t, u, value := StepStores(s, p, k);
    LoadedBytes(t.memory, SourceAt(s, p, k), p.w, b);
    SameCell(s.memory, t.memory, SourceAt(s, p, k), b, ReadAccess);
    WrittenInside(s, p, k, b);
    var y := ReadCell(s, p, k, b).value;
    assert ReadCell(s, p, k, b) == Some(y);
    StoresFrame(s, p, k, y);
  }

  /**
   After `k` iterations of MOVS that load every byte before it is overwritten,
   at any width and in either direction, every destination byte so far is the
   source byte it stands for.
   */
  lemma {:induction false} MovsCopies(s: MState, p: Plan, k: nat, j: nat, b: nat)
    requires p.kind.SMovs? && After(s, p, k).Ok? && LoadedFirst(s, p, k) && j < k && b < p.w.Bytes()
    ensures WriteCell(s, p, j, b).Some? && ReadCell(s, p, j, b).Some?
    ensures WriteCell(s, p, j, b).value < |s.memory.physical| && ReadCell(s, p, j, b).value < |s.memory.physical|
    ensures |After(s, p, k).value.memory.physical| == |s.memory.physical|
    ensures After(s, p, k).value.memory.physical[WriteCell(s, p, j, b).value] == s.memory.physical[ReadCell(s, p, j, b).value]
    decreases k
  {
    hide Iteration, Le, StoredValue, WriteCell, ReadCell;
    var t, value := StepWrites(s, p, k - 1, b);
    WrittenInside(s, p, j, b);
    if j == k - 1 {
      LoadsOriginal(s, p, k - 1, b);
    } else {
      MovsCopies(s, p, k - 1, j, b);
      StepFrames(s, p, k - 1, WriteCell(s, p, j, b).value);
    }
  }

  // --- SCAS and CMPS -------------------------------------------------------------------------------------

  /** What element `j` is compared with: the accumulator, or the source element. */
  function Left(s: MState, p: Plan, j: nat): Result<u32, ExecError> {
    if p.kind.SScas? then Ok(AccumulatorValue(s, p.w)) else LoadWidth(s.memory, SourceAt(s, p, j), p.w)
  }

  function Right(s: MState, p: Plan, j: nat): Result<u32, ExecError> { LoadWidth(s.memory, DestinationAt(s, p, j), p.w) }

  lemma ComparesKeep(s: MState, p: Plan)
    requires p.Conditional() && Iteration(s, p).Ok?
    ensures Iteration(s, p).value.memory == s.memory && Iteration(s, p).value.cpu.gpr[0] == s.cpu.gpr[0]
  {
    hide LoadWidth, WrapAdd, Mask, Delta, MergeFlags, FlagWord;
  }

  lemma {:induction false} ScanKeeps(s: MState, p: Plan, k: nat)
    requires p.Conditional() && After(s, p, k).Ok?
    ensures After(s, p, k).value.memory == s.memory && After(s, p, k).value.cpu.gpr[0] == s.cpu.gpr[0]
  {
    hide Iteration;
    if k > 0 {
      ScanKeeps(s, p, k - 1);
      ComparesKeep(After(s, p, k - 1).value, p);
    }
  }

  /** The zero flag one comparison leaves. */
  lemma ComparisonFlag(s: MState, p: Plan)
    requires p.Conditional() && Iteration(s, p).Ok?
    ensures Left(s, p, 0).Ok? && Right(s, p, 0).Ok?
    ensures Bit(Iteration(s, p).value.cpu.eflags, ZERO_BIT) <==> Left(s, p, 0) == Right(s, p, 0)
  {
    hide LoadWidth, WrapAdd, Delta, Bit, MergeFlags, FlagWord, SubBits, Mask;
    WrapZero(Reg(s, Esi)); WrapZero(Reg(s, Edi));
    assert SourceAt(s, p, 0) == SourceOf(s, p) && DestinationAt(s, p, 0) == DestinationOf(s, p);
    MaskBound(s.cpu.gpr[0], p.w);
    var a, b := Left(s, p, 0).value, Right(s, p, 0).value;
    DifferenceIs(a, b, p.w);
    FlagsAfter(s.cpu.eflags, SubBits(a, b, false, p.w).1);
  }

  /** Element `j` decides the zero flag after `j + 1` iterations. */
  lemma ComparesAt(s: MState, p: Plan, j: nat)
    requires p.Conditional() && After(s, p, j + 1).Ok?
    ensures Left(s, p, j).Ok? && Right(s, p, j).Ok?
    ensures Stops(After(s, p, j + 1).value, p) <==> (Left(s, p, j) == Right(s, p, j)) == p.repne
  {
    var t := After(s, p, j).value;
    ScanKeeps(s, p, j);
    PointersMove(s, p, j);
    ComparisonFlag(t, p);
    hide LoadWidth, Iteration, Bit, Mask, Delta, WrapAdd;
    WrapZero(Reg(t, Esi)); WrapZero(Reg(t, Edi));
    assert 0 * Delta(t, p) == 0;
    assert Left(t, p, 0) == Left(s, p, j) && Right(t, p, 0) == Right(s, p, j);
  }

  /**
   A repeated SCAS or CMPS ends at the first element that decides it: with REPNE
   the first that compares equal, with REPE the first that does not. Every
   element before its last one did not decide it; if count is left over and
   nothing faulted, the last one did.
   */
  lemma ScanStops(s: MState, p: Plan, j: nat)
    requires p.Conditional() && j < Completed(s, p)
    ensures Left(s, p, j).Ok? && Right(s, p, j).Ok?
    ensures j + 1 < Completed(s, p) || RepSpec(s, p).Faulted? ==> (Left(s, p, j) == Right(s, p, j)) != p.repne
    ensures j + 1 == Completed(s, p) && RepSpec(s, p).Finished? && Reg(RepSpec(s, p).state, Ecx) > 0 ==>
              (Left(s, p, j) == Right(s, p, j)) == p.repne
  {
    hide Iteration, Stops, Left, Right, RepSpec, Completed;
    RepTrace(s, p);
    ComparesAt(s, p, j);
  }
}
