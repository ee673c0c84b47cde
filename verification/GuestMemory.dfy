/**
 The guest address space: a page table over physical RAM, checked and
 all-or-nothing accesses, and a write count per physical page whose low sixteen
 bits are the page's generation (page_table.rs, access.rs, software.rs).
 */
module GuestMemory {
  import opened Words
  import opened Bits

  const PAGE: int := 0x1000

  datatype PageKind = Unmapped | Ram | MmioPage | Reserved

  datatype Access = ReadAccess | WriteAccess | ExecuteAccess

  datatype Permissions = Permissions(read: bool, write: bool, execute: bool)
  {
    predicate Allows(access: Access) {
      match access case ReadAccess => read case WriteAccess => write case ExecuteAccess => execute
    }
  }

  /** A physical page number, twenty bits in a descriptor. */
  type PhysicalPage = p: int | 0 <= p < 0x10_0000

  datatype Descriptor = Descriptor(valid: bool, kind: PageKind, permissions: Permissions, physicalPage: PhysicalPage)

  const UNMAPPED := Descriptor(false, Unmapped, Permissions(false, false, false), 0)

  datatype MemoryError =
    | RangeOverflow(address: u32)
    | NotMapped(address: u32)
    | AccessDenied(address: u32)
    | DeviceAccess(address: u32)
    | PhysicalOutOfRange(address: u32)

  datatype Space = Space(table: map<nat, Descriptor>, physical: seq<u8>, writes: map<PhysicalPage, nat>)
  {
    /** The descriptor of a virtual page; an unmapped one when there is none. */
    function Get(page: nat): Descriptor {
      if page in table then table[page] else UNMAPPED
    }

    /** How often a physical page was written. */
    function Writes(page: PhysicalPage): nat {
      if page in writes then writes[page] else 0
    }

    /** The 16-bit generation, which wraps. */
    function Generation(page: PhysicalPage): u16 {
      Writes(page) % 0x1_0000
    }

    /** The physical byte behind a virtual address, or why there is none. */
    function Translate(address: u32, access: Access): (r: Result<nat, MemoryError>)
      ensures r.Ok? ==> r.value < |physical| && r.value % PAGE == address % PAGE
    {
      var d := Get(address / PAGE);
      if !d.valid || d.kind == Unmapped then Err(NotMapped(address))
      else if !d.permissions.Allows(access) then Err(AccessDenied(address))
      else if d.kind == MmioPage then Err(DeviceAccess(address))
      else if d.kind == Reserved then Err(NotMapped(address))
      else if d.physicalPage * PAGE + address % PAGE >= |physical| then Err(PhysicalOutOfRange(address))
      else Ok(d.physicalPage * PAGE + address % PAGE)
    }

    /** The physical bytes behind a virtual range; the first fault when there is one. */
    function TranslateAll(address: nat, length: nat, access: Access): (r: Result<seq<nat>, MemoryError>)
      requires address + length <= TWO32
      ensures r.Ok? ==> |r.value| == length && forall i :: 0 <= i < length ==> r.value[i] < |physical|
      decreases length
    {
      if length == 0 then Ok([]) else
      var first :- Translate(address, access);
      var rest :- TranslateAll(address + 1, length - 1, access);
      Ok([first] + rest)
    }

    /** A checked read, also used for instruction fetches. */
    function Load(address: u32, length: nat, access: Access): (r: Result<seq<u8>, MemoryError>)
      ensures r.Ok? ==> |r.value| == length
    {
      if length == 0 then Ok([])
      else if address + length > TWO32 then Err(RangeOverflow(address))
      else
        var cells :- TranslateAll(address, length, access);
        Ok(seq(length, i requires 0 <= i < length => physical[cells[i]]))
    }

    /** A checked write: every byte or none, then one generation bump per covered page. */
    function Store(address: u32, data: seq<u8>): (r: Result<Space, MemoryError>)
      ensures r.Ok? ==> |r.value.physical| == |physical| && r.value.table == table
    {
      if data == [] then Ok(this)
      else if address + |data| > TWO32 then Err(RangeOverflow(address))
      else
        var cells :- TranslateAll(address, |data|, WriteAccess);
        Ok(this.(physical := Put(physical, cells, data)).Bump(address / PAGE, (address + |data| - 1) / PAGE))
    }

    /** Counts a write against each RAM page in a run of pages. */
    function Bump(first: nat, last: nat): (s: Space)
      ensures s.physical == physical && s.table == table
      decreases last + 1 - first
    {
      if first > last then this else
      var d := Get(first);
      var bumped := if d.valid && d.kind == Ram then this.(writes := writes[d.physicalPage := Writes(d.physicalPage) + 1]) else this;
      bumped.Bump(first + 1, last)
    }
  }

  /** Stores bytes into cells, in order. */
  function Put(physical: seq<u8>, cells: seq<nat>, data: seq<u8>): (r: seq<u8>)
    requires |cells| == |data| && forall i :: 0 <= i < |cells| ==> cells[i] < |physical|
    ensures |r| == |physical|
    decreases |data|
  {
    if data == [] then physical else Put(physical[cells[0] := data[0]], cells[1..], data[1..])
  }

  lemma {:induction false} TranslateAt(s: Space, address: nat, length: nat, access: Access, i: nat)
    requires address + length <= TWO32 && i < length
    requires s.TranslateAll(address, length, access).Ok?
    ensures s.Translate(address + i, access) == Ok(s.TranslateAll(address, length, access).value[i])
    decreases length
  {
    if i > 0 { TranslateAt(s, address + 1, length - 1, access, i - 1); }
  }

  /** A range translates when all its bytes do. */
  lemma {:induction false} TranslatesAll(s: Space, address: nat, length: nat, access: Access)
    requires address + length <= TWO32
    requires forall a :: address <= a < address + length ==> s.Translate(a, access).Ok?
    ensures s.TranslateAll(address, length, access).Ok?
    decreases length
  {
    if length > 0 {
      TranslatesAll(s, address + 1, length - 1, access);
    }
  }

  /** An access no longer than a page never touches a physical byte twice. */
  lemma CellsDistinct(s: Space, address: nat, length: nat, access: Access, i: nat, j: nat)
    requires address + length <= TWO32 && length <= PAGE && i < j < length
    requires s.TranslateAll(address, length, access).Ok?
    ensures s.TranslateAll(address, length, access).value[i] != s.TranslateAll(address, length, access).value[j]
  {
    TranslateAt(s, address, length, access, i);
    TranslateAt(s, address, length, access, j);
    assert (address + i) % PAGE != (address + j) % PAGE by { OffsetsDiffer(address + i, j - i); }
  }

  lemma OffsetsDiffer(x: nat, d: nat)
    requires 0 < d < PAGE
    ensures x % PAGE != (x + d) % PAGE
  {}

  /** What a run of stores leaves: the bytes stored, and everything else as it was. */
  lemma {:induction false} PutGet(physical: seq<u8>, cells: seq<nat>, data: seq<u8>, k: nat)
    requires |cells| == |data| && forall i :: 0 <= i < |cells| ==> cells[i] < |physical|
    requires forall i, j :: 0 <= i < j < |cells| ==> cells[i] != cells[j]
    requires k < |physical|
    ensures k !in cells ==> Put(physical, cells, data)[k] == physical[k]
    ensures forall i :: 0 <= i < |cells| && cells[i] == k ==> Put(physical, cells, data)[k] == data[i]
    decreases |data|
  {
    if data != [] {
      PutGet(physical[cells[0] := data[0]], cells[1..], data[1..], k);
      assert k !in cells ==> k !in cells[1..];
      forall i | 0 <= i < |cells| && cells[i] == k ensures Put(physical, cells, data)[k] == data[i] {
        if i > 0 { assert cells[1..][i - 1] == k; } else { assert k !in cells[1..]; }
      }
    }
  }

  lemma {:induction false} SameTranslations(s: Space, t: Space, address: nat, length: nat, access: Access)
    requires address + length <= TWO32 && s.table == t.table && |s.physical| == |t.physical|
    ensures s.TranslateAll(address, length, access) == t.TranslateAll(address, length, access)
    decreases length
  {
    if length > 0 { SameTranslations(s, t, address + 1, length - 1, access); }
  }

  /** Reading back what was written, at the same address. */
  lemma LoadAfterStore(s: Space, address: u32, data: seq<u8>)
    requires 0 < |data| <= PAGE && s.Store(address, data).Ok?
    requires s.Load(address, |data|, ReadAccess).Ok?
    ensures s.Store(address, data).value.Load(address, |data|, ReadAccess) == Ok(data)
  {
    hide *;
    var t := s.Store(address, data).value;
    StoreFacts(s, address, data);
    var cells := s.TranslateAll(address, |data|, WriteAccess).value;
    LoadIs(s, address, |data|, ReadAccess);
    SameCells(s, address, |data|);
    SameTranslations(s, t, address, |data|, ReadAccess);
    LoadIs(t, address, |data|, ReadAccess);
    forall i, j | 0 <= i < j < |cells| ensures cells[i] != cells[j] {
      CellsDistinct(s, address, |data|, WriteAccess, i, j);
    }
    var loaded := t.Load(address, |data|, ReadAccess).value;
    forall i | 0 <= i < |data| ensures loaded[i] == data[i] {
      PutGet(s.physical, cells, data, cells[i]);
    }
    assert loaded == data;
  }

  lemma StoreFacts(s: Space, address: u32, data: seq<u8>)
    requires data != [] && s.Store(address, data).Ok?
    ensures address + |data| <= TWO32 && s.TranslateAll(address, |data|, WriteAccess).Ok?
    ensures s.Store(address, data).value.physical == Put(s.physical, s.TranslateAll(address, |data|, WriteAccess).value, data)
    ensures s.Store(address, data).value.table == s.table
  {}

  lemma LoadIs(s: Space, address: u32, length: nat, access: Access)
    requires 0 < length && address + length <= TWO32
    ensures s.Load(address, length, access).Ok? <==> s.TranslateAll(address, length, access).Ok?
    ensures s.Load(address, length, access).Ok? ==>
              forall i :: 0 <= i < length ==>
                s.Load(address, length, access).value[i] == s.physical[s.TranslateAll(address, length, access).value[i]]
  {}

  /** Reads and writes of one range that both succeed reach the same cells. */
  lemma {:induction false} SameCells(s: Space, address: nat, length: nat)
    requires address + length <= TWO32
    requires s.TranslateAll(address, length, WriteAccess).Ok?
    requires s.TranslateAll(address, length, ReadAccess).Ok?
    ensures s.TranslateAll(address, length, WriteAccess) == s.TranslateAll(address, length, ReadAccess)
    decreases length
  {
    if length > 0 { SameCells(s, address + 1, length - 1); }
  }

  /**
   What a byte's page answers: unmapped before all else, then the permission,
   then device and reserved pages, then RAM that is not there; else the cell.
   */
  ghost predicate Answers(s: Space, address: u32, access: Access, r: Result<nat, MemoryError>) {
    var present := address / 0x1000 in s.table && s.table[address / 0x1000].valid && !s.table[address / 0x1000].kind.Unmapped?;
    if !present then r == Err(NotMapped(address)) else
    var d := s.table[address / 0x1000];
    var allowed := (access == ReadAccess && d.permissions.read) || (access == WriteAccess && d.permissions.write)
                   || (access == ExecuteAccess && d.permissions.execute);
    var cell := d.physicalPage * 0x1000 + address % 0x1000;
    && (!allowed ==> r == Err(AccessDenied(address)))
    && (allowed && d.kind.MmioPage? ==> r == Err(DeviceAccess(address)))
    && (allowed && d.kind.Reserved? ==> r == Err(NotMapped(address)))
    && (allowed && d.kind.Ram? && cell >= |s.physical| ==> r == Err(PhysicalOutOfRange(address)))
    && (allowed && d.kind.Ram? && cell < |s.physical| ==> r == Ok(cell))
  }

  lemma TranslateMeans(s: Space, address: u32, access: Access)
    ensures Answers(s, address, access, s.Translate(address, access))
  {}

  /** A range faults as its first byte that does, and only where it has one; past the top of the address space it overflows. */
  lemma FaultsMean(s: Space, address: u32, length: nat, access: Access)
    requires length > 0
    ensures address + length > TWO32 ==> s.Load(address, length, access) == Err(RangeOverflow(address))
    ensures address + length <= TWO32 && (forall k :: address <= k < address + length ==> s.Translate(k, access).Ok?) ==>
              s.Load(address, length, access).Ok?
    ensures forall k: u32 :: address <= k < address + length <= TWO32 && s.Translate(k, access).Err?
                             && (forall j :: address <= j < k ==> s.Translate(j, access).Ok?) ==>
              s.Load(address, length, access) == Err(s.Translate(k, access).error)
  {
    if address + length <= TWO32 {
      if forall k :: address <= k < address + length ==> s.Translate(k, access).Ok? { TranslatesAll(s, address, length, access); }
      forall k: u32 | address <= k < address + length && s.Translate(k, access).Err? && (forall j :: address <= j < k ==> s.Translate(j, access).Ok?)
        ensures s.Load(address, length, access) == Err(s.Translate(k, access).error)
      {
        FirstFault(s, address, length, access, k);
      }
    }
  }

  lemma {:induction false} FirstFault(s: Space, address: nat, length: nat, access: Access, k: u32)
    requires address <= k < address + length <= TWO32 && s.Translate(k, access).Err?
    requires forall j :: address <= j < k ==> s.Translate(j, access).Ok?
    ensures s.TranslateAll(address, length, access) == Err(s.Translate(k, access).error)
    decreases length
  {
    if address < k { FirstFault(s, address + 1, length - 1, access, k); }
  }

  /** A store is refused for the same faults, and a refused one changes nothing. */
  lemma StoreFaults(s: Space, address: u32, data: seq<u8>)
    requires data != []
    ensures s.Store(address, data).Err? <==> s.Load(address, |data|, WriteAccess).Err?
    ensures s.Store(address, data).Err? ==> s.Store(address, data).error == s.Load(address, |data|, WriteAccess).error
  {}
}
