/**
 A plain view of the guest address space: which pages are mapped with which
 permissions, and which byte each address shows. The page table over physical
 RAM (`GuestMemory.Space`) represents such a view, and each operation of the
 address space (software.rs, page_table.rs) is proved to keep the two in step.
 */
module SpaceView {
  import opened Words
  import opened Bits
  import opened GuestMemory

  const PAGES: int := 0x10_0000
  const READ_WRITE := Permissions(true, true, false)

  /** The pages with their permissions, the bytes ever written, and the physical pages left. */
  datatype Mapped = Mapped(permissions: map<nat, Permissions>, stored: map<nat, u8>, available: nat)
  {
    /** Bytes are only kept for mapped pages. */
    ghost predicate Valid() {
      forall a :: a in stored ==> a / PAGE in permissions
    }

    /** A byte of a mapped page; pages start zeroed. */
    function Byte(address: nat): u8 {
      if address in stored then stored[address] else 0
    }

    predicate Allows(page: nat, access: Access) { page in permissions && permissions[page].Allows(access) }

    predicate Writable(page: nat) { Allows(page, WriteAccess) }
  }

  predicate InRun(first: nat, count: nat, k: nat) { first <= k < first + count }

  /** A permission map with a run of pages set. */
  function WithRun(permissions: map<nat, Permissions>, first: nat, count: nat, value: Permissions): map<nat, Permissions> {
    permissions + map page {:trigger InRun(first, count, page)} | first <= page < first + count && InRun(first, count, page) :: value
  }

  /** The bytes of a write. */
  function DataMap(address: nat, data: seq<u8>): map<nat, u8> {
    map a {:trigger InRun(address, |data|, a)} | address <= a < address + |data| && InRun(address, |data|, a) :: data[a - address]
  }

  /** A range has a byte on a page. */
  predicate Touches(address: nat, length: nat, page: nat) {
    length > 0 && address / PAGE <= page <= (address + length - 1) / PAGE
  }

  // --- representation ----------------------------------------------------------------------

  /** The physical byte a page table gives an address. */
  function Cell(s: Space, address: nat): nat { s.Get(address / PAGE).physicalPage * PAGE + address % PAGE }

  /** An address on a mapped page that is not an alias of other pages. */
  predicate Private(m: Mapped, aliased: set<nat>, address: nat) {
    address / PAGE in m.permissions && address / PAGE !in aliased
  }

  /** The table maps the view's pages, to RAM and with its permissions. */
  ghost predicate TableShows(m: Mapped, s: Space) {
    && (forall page: nat :: page in m.permissions <==> s.Get(page).valid)
    && (forall page: nat :: page in m.permissions ==>
          page < PAGES && s.Get(page).kind == Ram && s.Get(page).permissions == m.permissions[page])
  }

  /** Private pages have physical pages of their own, below the allocator's cursor. */
  ghost predicate Owned(m: Mapped, s: Space, next: nat, aliased: set<nat>) {
    && (forall page: nat :: page in m.permissions && page !in aliased ==> s.Get(page).physicalPage < next)
    && (forall p: nat, q: nat :: p in m.permissions && q in m.permissions && p !in aliased && q !in aliased && p != q ==>
          s.Get(p).physicalPage != s.Get(q).physicalPage)
  }

  /** RAM is as large as the pages handed out and left; every mapping stays inside it. */
  ghost predicate Sized(m: Mapped, s: Space, next: nat) {
    && |s.physical| == (next + m.available) * PAGE && next + m.available <= PAGES
    && forall page: nat :: page in m.permissions ==> s.Get(page).physicalPage < next + m.available
  }

  /** RAM holds the view's bytes. */
  ghost predicate BytesShow(m: Mapped, s: Space, aliased: set<nat>) {
    forall a: nat :: Private(m, aliased, a) ==> Cell(s, a) < |s.physical| && s.physical[Cell(s, a)] == m.Byte(a)
  }

  /** RAM past the cursor is zero. */
  ghost predicate FreeZeroed(s: Space, next: nat) {
    ZeroFrom(s.physical, next * PAGE)
  }

  ghost predicate ZeroFrom(bytes: seq<u8>, low: nat) { forall x :: low <= x < |bytes| ==> bytes[x] == 0 }

  /** A page table over RAM, with the allocator's cursor, that shows a view; some pages may alias others. */
  ghost predicate Represents(m: Mapped, s: Space, next: nat, aliased: set<nat>) {
    && m.Valid() && aliased <= m.permissions.Keys
    && TableShows(m, s) && Owned(m, s, next, aliased) && Sized(m, s, next) && BytesShow(m, s, aliased)
  }

  // --- accesses --------------------------------------------------------------------------------

  /** An address translates exactly when its page is mapped and allows the access. */
  lemma TranslatesWhen(m: Mapped, s: Space, next: nat, address: u32, access: Access)
    requires TableShows(m, s) && Sized(m, s, next)
    ensures s.Translate(address, access).Ok? <==> m.Allows(address / PAGE, access)
    ensures s.Translate(address, access).Ok? ==> s.Translate(address, access).value == Cell(s, address) < |s.physical|
  {}

  /** A range is accessible exactly when every page it touches allows the access. */
  lemma RangeTranslates(m: Mapped, s: Space, next: nat, address: u32, length: nat, access: Access)
    requires TableShows(m, s) && Sized(m, s, next) && 0 < length && address + length <= TWO32
    ensures s.TranslateAll(address, length, access).Ok? <==> forall page: nat :: Touches(address, length, page) ==> m.Allows(page, access)
  {
    hide TableShows, Sized;
    if forall page: nat :: Touches(address, length, page) ==> m.Allows(page, access) {
      forall a | address <= a < address + length ensures s.Translate(a, access).Ok? {
        assert Touches(address, length, a / PAGE);
        TranslatesWhen(m, s, next, a, access);
      }
      TranslatesAll(s, address, length, access);
    }
    if s.TranslateAll(address, length, access).Ok? {
      forall page: nat | Touches(address, length, page) ensures m.Allows(page, access) {
        var a := if page == address / PAGE then address else page * PAGE;
        TouchedAt(address, length, page, a);
        TranslateAt(s, address, length, access, a - address);
        TranslatesWhen(m, s, next, a, access);
      }
    }
  }

  lemma TouchedAt(address: nat, length: nat, page: nat, a: nat)
    requires Touches(address, length, page) && a == if page == address / PAGE then address else page * PAGE
    ensures address <= a < address + length && a / PAGE == page
  {}

  /** A range past the end of the address space touches a page that cannot be mapped. */
  lemma OverflowUnmapped(m: Mapped, s: Space, address: u32, length: nat)
    requires TableShows(m, s) && address + length > TWO32
    ensures Touches(address, length, PAGES) && !m.Writable(PAGES)
  {}

  /** The cells of a translated range. */
  lemma RangeCells(m: Mapped, s: Space, next: nat, address: u32, length: nat, access: Access, i: nat)
    requires TableShows(m, s) && Sized(m, s, next) && i < length && address + length <= TWO32
    requires s.TranslateAll(address, length, access).Ok?
    ensures s.TranslateAll(address, length, access).value[i] == Cell(s, address + i)
    ensures m.Allows((address + i) / PAGE, access)
  {
    hide TableShows, Sized;
    TranslateAt(s, address, length, access, i);
    TranslatesWhen(m, s, next, address + i, access);
  }

  /** Different private addresses have different cells. */
  lemma CellsApart(m: Mapped, s: Space, next: nat, aliased: set<nat>, a: nat, b: nat)
    requires Owned(m, s, next, aliased) && Private(m, aliased, a) && Private(m, aliased, b) && a != b
    ensures Cell(s, a) != Cell(s, b)
  {
    var p, q := s.Get(a / PAGE).physicalPage, s.Get(b / PAGE).physicalPage;
    assert a / PAGE != b / PAGE ==> p != q;
  }

  /** Reading private addresses gives the view's bytes, exactly when their pages allow it. */
  lemma LoadShows(m: Mapped, s: Space, next: nat, aliased: set<nat>, address: u32, length: nat, access: Access)
    requires Represents(m, s, next, aliased) && 0 < length && address + length <= TWO32
    requires forall page: nat :: Touches(address, length, page) ==> page !in aliased
    ensures s.Load(address, length, access).Ok? <==> forall page: nat :: Touches(address, length, page) ==> m.Allows(page, access)
    ensures s.Load(address, length, access).Ok? ==>
              forall i :: 0 <= i < length ==> s.Load(address, length, access).value[i] == m.Byte(address + i)
  {
    hide TableShows, Owned, Sized, Cell;
    RangeTranslates(m, s, next, address, length, access);
    LoadIs(s, address, length, access);
    if s.Load(address, length, access).Ok? {
      forall i | 0 <= i < length ensures s.Load(address, length, access).value[i] == m.Byte(address + i) {
        RangeCells(m, s, next, address, length, access, i);
        assert Touches(address, length, (address + i) / PAGE);
        assert Private(m, aliased, address + i);
      }
    }
  }

  // --- writing --------------------------------------------------------------------------------------

  /** The cells of a run of private addresses. */
  ghost predicate CellsOf(m: Mapped, s: Space, aliased: set<nat>, address: nat, cells: seq<nat>) {
    forall i :: 0 <= i < |cells| ==> cells[i] == Cell(s, address + i) && Private(m, aliased, address + i) && cells[i] < |s.physical|
  }

  ghost predicate Distinct(cells: seq<nat>) { forall i, j :: 0 <= i < j < |cells| ==> cells[i] != cells[j] }

  lemma StoreCells(m: Mapped, s: Space, next: nat, aliased: set<nat>, address: u32, data: seq<u8>) returns (cells: seq<nat>)
    requires TableShows(m, s) && Sized(m, s, next) && data != [] && s.Store(address, data).Ok?
    requires forall page: nat :: Touches(address, |data|, page) ==> page !in aliased
    ensures |cells| == |data| && CellsOf(m, s, aliased, address, cells)
    ensures forall i :: 0 <= i < |cells| ==> cells[i] < |s.physical|
    ensures s.Store(address, data).value.physical == Put(s.physical, cells, data)
    ensures s.Store(address, data).value.table == s.table
  {
    StoreFacts(s, address, data);
    hide TableShows, Sized, Cell, Put, Private, Touches;
    cells := s.TranslateAll(address, |data|, WriteAccess).value;
    forall i | 0 <= i < |cells| ensures cells[i] == Cell(s, address + i) && Private(m, aliased, address + i) && cells[i] < |s.physical| {
      RangeCells(m, s, next, address, |data|, WriteAccess, i);
      TouchesByte(address, |data|, i);
      TouchedPrivate(m, aliased, address + i);
    }
  }

  lemma TouchesByte(address: nat, length: nat, i: nat)
    requires i < length
    ensures Touches(address, length, (address + i) / PAGE)
  {}

  lemma TouchedPrivate(m: Mapped, aliased: set<nat>, address: nat)
    requires m.Allows(address / PAGE, WriteAccess) && address / PAGE !in aliased
    ensures Private(m, aliased, address)
  {}

  lemma CellsDiffer(m: Mapped, s: Space, next: nat, aliased: set<nat>, address: nat, cells: seq<nat>)
    requires Owned(m, s, next, aliased) && CellsOf(m, s, aliased, address, cells)
    ensures Distinct(cells)
  {
    hide Owned, Cell, Private;
    forall i, j | 0 <= i < j < |cells| ensures cells[i] != cells[j] {
      assert cells[i] == Cell(s, address + i) && cells[j] == Cell(s, address + j);
      CellsApart(m, s, next, aliased, address + i, address + j);
    }
  }

  /** A write to private pages changes the view by exactly its bytes. */
  lemma StoreShows(m: Mapped, s: Space, next: nat, aliased: set<nat>, address: u32, data: seq<u8>)
    requires Represents(m, s, next, aliased) && data != [] && s.Store(address, data).Ok?
    requires forall page: nat :: Touches(address, |data|, page) ==> page !in aliased
    ensures Represents(m.(stored := m.stored + DataMap(address, data)), s.Store(address, data).value, next, aliased)
  {
    hide TableShows, Owned, Sized, DataMap, Put, CellsOf, Cell, Private, Touches, Distinct;
    var t, after := s.Store(address, data).value, m.(stored := m.stored + DataMap(address, data));
    var cells := StoreCells(m, s, next, aliased, address, data);
    CellsDiffer(m, s, next, aliased, address, cells);
    SameTable(m, after, s, t, next, aliased);
    forall a: nat | Private(after, aliased, a) ensures Cell(t, a) < |t.physical| && t.physical[Cell(t, a)] == after.Byte(a) {
      StoredByte(m, s, next, aliased, address, data, cells, a);
      SameCell(m, after, s, t, aliased, a);
    }
    StoredValid(m, s, aliased, address, data, cells);
  }

  lemma SameCell(m: Mapped, after: Mapped, s: Space, t: Space, aliased: set<nat>, a: nat)
    requires after.permissions == m.permissions && s.table == t.table
    ensures Cell(s, a) == Cell(t, a) && (Private(m, aliased, a) <==> Private(after, aliased, a))
  {}

  lemma SameTable(m: Mapped, after: Mapped, s: Space, t: Space, next: nat, aliased: set<nat>)
    requires after.permissions == m.permissions && after.available == m.available
    requires s.table == t.table && |s.physical| == |t.physical|
    requires TableShows(m, s) && Owned(m, s, next, aliased) && Sized(m, s, next)
    ensures TableShows(after, t) && Owned(after, t, next, aliased) && Sized(after, t, next)
  {
    assert forall page: nat :: s.Get(page) == t.Get(page);
  }

  lemma StoredByte(m: Mapped, s: Space, next: nat, aliased: set<nat>, address: nat, data: seq<u8>, cells: seq<nat>, a: nat)
    requires Owned(m, s, next, aliased) && BytesShow(m, s, aliased)
    requires |cells| == |data| && CellsOf(m, s, aliased, address, cells) && Distinct(cells)
    requires forall i :: 0 <= i < |cells| ==> cells[i] < |s.physical|
    ensures Private(m, aliased, a) ==>
              Cell(s, a) < |s.physical| && Put(s.physical, cells, data)[Cell(s, a)] == m.(stored := m.stored + DataMap(address, data)).Byte(a)
  {
    hide Owned, Cell, Put, Private;
    if Private(m, aliased, a) {
      PutGet(s.physical, cells, data, Cell(s, a));
      if InRun(address, |data|, a) {
        assert cells[a - address] == Cell(s, a);
      } else {
        forall i | 0 <= i < |data| ensures cells[i] != Cell(s, a) {
          assert cells[i] == Cell(s, address + i);
          CellsApart(m, s, next, aliased, address + i, a);
        }
      }
    }
  }

  lemma BelowCursor(m: Mapped, s: Space, next: nat, aliased: set<nat>, a: nat)
    requires Owned(m, s, next, aliased) && Private(m, aliased, a)
    ensures Cell(s, a) < next * PAGE
  {}

  lemma StoredValid(m: Mapped, s: Space, aliased: set<nat>, address: nat, data: seq<u8>, cells: seq<nat>)
    requires m.Valid() && |cells| == |data| && CellsOf(m, s, aliased, address, cells)
    ensures m.(stored := m.stored + DataMap(address, data)).Valid()
  {
    hide Cell;
    var after := m.(stored := m.stored + DataMap(address, data));
    forall a | a in after.stored ensures a / PAGE in after.permissions {
      if a !in m.stored {
        assert InRun(address, |data|, a);
        assert cells[a - address] == Cell(s, a);
      }
    }
  }

  // --- mapping ------------------------------------------------------------------------------------------

  /** The table with a run of pages mapped to consecutive physical pages. */
  function MapRam(s: Space, first: nat, count: nat, physical: nat, permissions: Permissions): (t: Space)
    requires physical + count <= PAGES
    ensures t.physical == s.physical && t.writes == s.writes
    ensures forall page: nat :: t.Get(page) == if InRun(first, count, page)
                                               then Descriptor(true, Ram, permissions, physical + (page - first)) else s.Get(page)
  {
    s.(table := s.table + map page {:trigger InRun(first, count, page)} | first <= page < first + count && InRun(first, count, page) ::
                            Descriptor(true, Ram, permissions, physical + (page - first)))
  }

  lemma RunAt(permissions: map<nat, Permissions>, first: nat, count: nat, value: Permissions, page: nat)
    ensures page in WithRun(permissions, first, count, value) <==> InRun(first, count, page) || page in permissions
    ensures InRun(first, count, page) ==> WithRun(permissions, first, count, value)[page] == value
    ensures !InRun(first, count, page) && page in permissions ==> WithRun(permissions, first, count, value)[page] == permissions[page]
  {}

  lemma WithRunIs(permissions: map<nat, Permissions>, first: nat, count: nat, value: Permissions)
    ensures forall page: nat :: page in WithRun(permissions, first, count, value) <==> InRun(first, count, page) || page in permissions
    ensures forall page: nat :: page in WithRun(permissions, first, count, value) ==>
              WithRun(permissions, first, count, value)[page] == if InRun(first, count, page) then value else permissions[page]
  {}

  /** The physical byte behind an address of a run mapped to consecutive physical pages. */
  function FreshCell(first: nat, physical: nat, address: nat): nat
    requires first <= address / PAGE
  {
    (physical + (address / PAGE - first)) * PAGE + address % PAGE
  }

  /** The byte RAM already holds there is not zero. */
  predicate FoundAt(s: Space, first: nat, count: nat, physical: nat, address: nat) {
    && InRun(first, count, address / PAGE)
    && FreshCell(first, physical, address) < |s.physical| && s.physical[FreshCell(first, physical, address)] != 0
  }

  /** What a run just mapped shows beside zeros. */
  function Found(s: Space, first: nat, count: nat, physical: nat): map<nat, u8> {
    map a {:trigger FoundAt(s, first, count, physical, a)} | first * PAGE <= a < (first + count) * PAGE && FoundAt(s, first, count, physical, a) ::
      s.physical[FreshCell(first, physical, a)]
  }

  lemma FoundIs(s: Space, first: nat, count: nat, physical: nat, address: nat)
    ensures address in Found(s, first, count, physical) <==> FoundAt(s, first, count, physical, address)
    ensures FoundAt(s, first, count, physical, address) ==> Found(s, first, count, physical)[address] == s.physical[FreshCell(first, physical, address)]
  {}

  /** Nothing is found in RAM that is zero past the cursor. */
  lemma FoundNothing(s: Space, first: nat, count: nat, next: nat)
    requires FreeZeroed(s, next)
    ensures Found(s, first, count, next) == map[]
  {
    hide Found;
    forall a: nat ensures a !in Found(s, first, count, next) { FoundIs(s, first, count, next, a); }
  }

  /** Mapping free virtual pages to the next physical pages shows what RAM holds there, and nothing else changes. */
  lemma MapShows(m: Mapped, s: Space, next: nat, aliased: set<nat>, first: nat, count: nat, permissions: Permissions)
    requires Represents(m, s, next, aliased) && count <= m.available && first + count <= PAGES
    requires forall page: nat :: InRun(first, count, page) ==> page !in m.permissions
    ensures Represents(WithFresh(m, s, next, first, count, permissions), MapRam(s, first, count, next, permissions), next + count, aliased)
  {
    hide WithRun, MapRam, Found, TableShows, Owned, BytesShow, Sized;
    var after := WithFresh(m, s, next, first, count, permissions).(available := m.available);
    SizedBound(m, s, next);
    var t := MapRam(s, first, count, next, permissions);
    MapValid(m, aliased, first, count, permissions);
    WithRunIs(m.permissions, first, count, permissions);
    FoundValid(m.(permissions := after.permissions), s, first, count, next);
    MapTable(m, s, next, first, count, next, permissions);
    MapOwned(m, s, next, aliased, first, count, permissions);
    SameShape(m.(permissions := after.permissions), after, t, next, next + count, aliased);
    MapBytes(m, s, next, aliased, first, count, permissions);
    MovedCursor(after, after.(available := m.available - count), t, next, count, aliased);
  }

  /** The view with a run mapped to the next physical pages. */
  function WithFresh(m: Mapped, s: Space, next: nat, first: nat, count: nat, permissions: Permissions): Mapped
    requires count <= m.available
  {
    Mapped(WithRun(m.permissions, first, count, permissions), m.stored + Found(s, first, count, next), m.available - count)
  }

  lemma FoundValid(m: Mapped, s: Space, first: nat, count: nat, physical: nat)
    requires m.Valid() && forall page: nat :: InRun(first, count, page) ==> page in m.permissions
    ensures m.(stored := m.stored + Found(s, first, count, physical)).Valid()
  {
    var after := m.(stored := m.stored + Found(s, first, count, physical));
    hide Found;
    forall a | a in after.stored ensures a / PAGE in after.permissions { FoundIs(s, first, count, physical, a); }
  }

  lemma SameShape(m: Mapped, after: Mapped, s: Space, next: nat, later: nat, aliased: set<nat>)
    requires after.permissions == m.permissions && after.available == m.available
    requires TableShows(m, s) && Sized(m, s, next) && Owned(m, s, later, aliased)
    ensures TableShows(after, s) && Sized(after, s, next) && Owned(after, s, later, aliased)
  {}

  lemma SizedBound(m: Mapped, s: Space, next: nat)
    requires Sized(m, s, next)
    ensures |s.physical| == (next + m.available) * PAGE && next + m.available <= PAGES
  {}

  lemma MapValid(m: Mapped, aliased: set<nat>, first: nat, count: nat, permissions: Permissions)
    requires m.Valid() && aliased <= m.permissions.Keys
    ensures m.(permissions := WithRun(m.permissions, first, count, permissions)).Valid()
    ensures aliased <= WithRun(m.permissions, first, count, permissions).Keys
  {
    WithRunIs(m.permissions, first, count, permissions);
  }

  /** Handing pages out moves the cursor and leaves fewer. */
  lemma MovedCursor(m: Mapped, after: Mapped, s: Space, next: nat, count: nat, aliased: set<nat>)
    requires count <= m.available && after == m.(available := m.available - count)
    requires TableShows(m, s) && Sized(m, s, next) && BytesShow(m, s, aliased) && Owned(m, s, next + count, aliased)
    ensures TableShows(after, s) && Sized(after, s, next + count) && BytesShow(after, s, aliased) && Owned(after, s, next + count, aliased)
  {
    assert forall a: nat :: Private(m, aliased, a) <==> Private(after, aliased, a);
  }

  lemma MapBytes(m: Mapped, s: Space, next: nat, aliased: set<nat>, first: nat, count: nat, permissions: Permissions)
    requires m.Valid() && Sized(m, s, next) && BytesShow(m, s, aliased) && count <= m.available
    requires forall page: nat :: InRun(first, count, page) ==> page !in m.permissions
    ensures next + count <= PAGES
    ensures BytesShow(WithFresh(m, s, next, first, count, permissions).(available := m.available), MapRam(s, first, count, next, permissions), aliased)
  {
    hide WithRun, MapRam, Sized, Cell, Found;
    SizedBound(m, s, next);
    var after, t := WithFresh(m, s, next, first, count, permissions).(available := m.available), MapRam(s, first, count, next, permissions);
    forall a: nat | Private(after, aliased, a) ensures Cell(t, a) < |t.physical| && t.physical[Cell(t, a)] == after.Byte(a) {
      MappedByte(m, s, next, aliased, first, count, permissions, a);
    }
  }

  /** Mapping a free run inside RAM, wherever it leads. */
  lemma MapTable(m: Mapped, s: Space, next: nat, first: nat, count: nat, physical: nat, permissions: Permissions)
    requires TableShows(m, s) && Sized(m, s, next) && first + count <= PAGES && physical + count <= next + m.available
    ensures physical + count <= PAGES
    ensures var after := m.(permissions := WithRun(m.permissions, first, count, permissions));
            TableShows(after, MapRam(s, first, count, physical, permissions)) && Sized(after, MapRam(s, first, count, physical, permissions), next)
  {
    WithRunIs(m.permissions, first, count, permissions);
    hide WithRun, MapRam;
  }

  lemma MapOwned(m: Mapped, s: Space, next: nat, aliased: set<nat>, first: nat, count: nat, permissions: Permissions)
    requires Owned(m, s, next, aliased) && next + count <= PAGES
    ensures Owned(m.(permissions := WithRun(m.permissions, first, count, permissions)), MapRam(s, first, count, next, permissions),
                  next + count, aliased)
  {
    WithRunIs(m.permissions, first, count, permissions);
    hide WithRun, MapRam;
  }

  lemma MappedByte(m: Mapped, s: Space, next: nat, aliased: set<nat>, first: nat, count: nat, permissions: Permissions, a: nat)
    requires m.Valid() && Sized(m, s, next) && BytesShow(m, s, aliased) && count <= m.available && next + count <= PAGES
    requires forall page: nat :: InRun(first, count, page) ==> page !in m.permissions
    requires Private(WithFresh(m, s, next, first, count, permissions), aliased, a)
    ensures var t := MapRam(s, first, count, next, permissions);
            Cell(t, a) < |t.physical| && t.physical[Cell(t, a)] == WithFresh(m, s, next, first, count, permissions).Byte(a)
  {
    hide WithRun, MapRam, Found, Sized, BytesShow;
    FoundIs(s, first, count, next, a);
    CellMapped(s, first, count, next, permissions, a);
    if InRun(first, count, a / PAGE) {
      hide Cell, FreshCell;
      assert a !in m.stored;
      FreshInside(m, s, next, first, count, a);
    } else {
      RunAt(m.permissions, first, count, permissions, a / PAGE);
      hide Cell, FreshCell;
      PrivateByte(m, s, aliased, a);
    }
  }

  lemma CellMapped(s: Space, first: nat, count: nat, physical: nat, permissions: Permissions, a: nat)
    requires physical + count <= PAGES
    ensures InRun(first, count, a / PAGE) ==> Cell(MapRam(s, first, count, physical, permissions), a) == FreshCell(first, physical, a)
    ensures !InRun(first, count, a / PAGE) ==> Cell(MapRam(s, first, count, physical, permissions), a) == Cell(s, a)
  {
    hide MapRam;
  }

  lemma PrivateByte(m: Mapped, s: Space, aliased: set<nat>, a: nat)
    requires BytesShow(m, s, aliased) && Private(m, aliased, a)
    ensures Cell(s, a) < |s.physical| && s.physical[Cell(s, a)] == m.Byte(a)
  {}

  lemma FreshInside(m: Mapped, s: Space, next: nat, first: nat, count: nat, a: nat)
    requires Sized(m, s, next) && count <= m.available && InRun(first, count, a / PAGE)
    ensures next * PAGE <= FreshCell(first, next, a) < |s.physical|
  {}

  /** Changing the permissions of mapped pages changes only those. */
  function WithPermissions(s: Space, first: nat, count: nat, permissions: Permissions): (t: Space)
    ensures t.physical == s.physical && t.writes == s.writes
    ensures forall page: nat :: t.Get(page) == if InRun(first, count, page) then s.Get(page).(permissions := permissions) else s.Get(page)
  {
    s.(table := s.table + map page {:trigger InRun(first, count, page)} | first <= page < first + count && InRun(first, count, page) ::
                            s.Get(page).(permissions := permissions))
  }

  lemma ProtectShows(m: Mapped, s: Space, next: nat, aliased: set<nat>, first: nat, count: nat, permissions: Permissions)
    requires Represents(m, s, next, aliased)
    requires forall page: nat :: InRun(first, count, page) ==> page in m.permissions
    ensures Represents(m.(permissions := WithRun(m.permissions, first, count, permissions)),
                       WithPermissions(s, first, count, permissions), next, aliased)
  {
    hide WithRun, WithPermissions, TableShows, Owned, BytesShow, Sized;
    MapValid(m, aliased, first, count, permissions);
    ProtectTable(m, s, next, first, count, permissions);
    ProtectOwned(m, s, next, aliased, first, count, permissions);
    ProtectBytes(m, s, aliased, first, count, permissions);
  }

  lemma ProtectTable(m: Mapped, s: Space, next: nat, first: nat, count: nat, permissions: Permissions)
    requires TableShows(m, s) && Sized(m, s, next)
    requires forall page: nat :: InRun(first, count, page) ==> page in m.permissions
    ensures var after := m.(permissions := WithRun(m.permissions, first, count, permissions));
            TableShows(after, WithPermissions(s, first, count, permissions)) && Sized(after, WithPermissions(s, first, count, permissions), next)
  {
    WithRunIs(m.permissions, first, count, permissions);
    hide WithRun, WithPermissions;
  }

  lemma ProtectOwned(m: Mapped, s: Space, next: nat, aliased: set<nat>, first: nat, count: nat, permissions: Permissions)
    requires Owned(m, s, next, aliased)
    requires forall page: nat :: InRun(first, count, page) ==> page in m.permissions
    ensures Owned(m.(permissions := WithRun(m.permissions, first, count, permissions)), WithPermissions(s, first, count, permissions), next, aliased)
  {
    WithRunIs(m.permissions, first, count, permissions);
    hide WithRun, WithPermissions;
  }

  lemma ProtectBytes(m: Mapped, s: Space, aliased: set<nat>, first: nat, count: nat, permissions: Permissions)
    requires BytesShow(m, s, aliased)
    requires forall page: nat :: InRun(first, count, page) ==> page in m.permissions
    ensures BytesShow(m.(permissions := WithRun(m.permissions, first, count, permissions)), WithPermissions(s, first, count, permissions), aliased)
  {
    WithRunIs(m.permissions, first, count, permissions);
    hide WithRun, WithPermissions;
    var after, t := m.(permissions := WithRun(m.permissions, first, count, permissions)), WithPermissions(s, first, count, permissions);
    forall a: nat | Private(after, aliased, a) ensures Cell(t, a) < |t.physical| && t.physical[Cell(t, a)] == after.Byte(a) {
      assert Private(m, aliased, a) && Cell(t, a) == Cell(s, a);
    }
  }

  /** The pages of a run, as a set. */
  function RunSet(first: nat, count: nat): set<nat> { set page | first <= page < first + count && InRun(first, count, page) }

  /** Mapping free virtual pages over all of RAM from its start aliases every physical page and disturbs no private one. */
  lemma AliasShows(m: Mapped, s: Space, next: nat, first: nat, permissions: Permissions)
    requires Represents(m, s, next, {}) && first + next + m.available <= PAGES
    requires forall page: nat :: InRun(first, next + m.available, page) ==> page !in m.permissions
    ensures var count := next + m.available;
            Represents(m.(permissions := WithRun(m.permissions, first, count, permissions)),
                       MapRam(s, first, count, 0, permissions), next, RunSet(first, count))
  {
    hide WithRun, MapRam, TableShows, Owned, BytesShow, Sized, RunSet;
    SizedBound(m, s, next);
    var count := next + m.available;
    MapValid(m, {}, first, count, permissions);
    MapTable(m, s, next, first, count, 0, permissions);
    AliasOwned(m, s, next, first, count, permissions);
    AliasBytes(m, s, first, count, permissions);
  }

  lemma AliasBytes(m: Mapped, s: Space, first: nat, count: nat, permissions: Permissions)
    requires BytesShow(m, s, {}) && count <= PAGES
    ensures BytesShow(m.(permissions := WithRun(m.permissions, first, count, permissions)), MapRam(s, first, count, 0, permissions),
                      RunSet(first, count))
    ensures RunSet(first, count) <= WithRun(m.permissions, first, count, permissions).Keys
  {
    WithRunIs(m.permissions, first, count, permissions);
    hide WithRun, MapRam;
    var after, t := m.(permissions := WithRun(m.permissions, first, count, permissions)), MapRam(s, first, count, 0, permissions);
    forall a: nat | Private(after, RunSet(first, count), a) ensures Cell(t, a) < |t.physical| && t.physical[Cell(t, a)] == after.Byte(a) {
      assert Private(m, {}, a) && Cell(t, a) == Cell(s, a);
    }
  }

  lemma AliasOwned(m: Mapped, s: Space, next: nat, first: nat, count: nat, permissions: Permissions)
    requires Owned(m, s, next, {}) && count <= PAGES
    ensures Owned(m.(permissions := WithRun(m.permissions, first, count, permissions)), MapRam(s, first, count, 0, permissions),
                  next, RunSet(first, count))
  {
    WithRunIs(m.permissions, first, count, permissions);
    hide WithRun, MapRam;
    assert forall page: nat :: page in RunSet(first, count) <==> InRun(first, count, page);
  }

  // --- any write ---------------------------------------------------------------------------------------

  /** Every private byte, as RAM has it. */
  function Seen(m: Mapped, s: Space, aliased: set<nat>): map<nat, u8> {
    map a {:trigger Private(m, aliased, a)} | 0 <= a < TWO32 && Private(m, aliased, a) ::
      if Cell(s, a) < |s.physical| then s.physical[Cell(s, a)] else 0
  }

  /** Whatever is written where, a view of the private bytes as they are then is right. */
  lemma RefreshedShows(m: Mapped, s: Space, t: Space, next: nat, aliased: set<nat>)
    requires Represents(m, s, next, aliased) && t.table == s.table && |t.physical| == |s.physical|
    ensures Represents(m.(stored := Seen(m, t, aliased)), t, next, aliased)
  {
    hide Owned, Sized, BytesShow;
    var after := m.(stored := Seen(m, t, aliased));
    SameTable(m, after, s, t, next, aliased);
    SeenShows(m, s, t, next, aliased);
  }

  lemma SeenShows(m: Mapped, s: Space, t: Space, next: nat, aliased: set<nat>)
    requires TableShows(m, s) && BytesShow(m, s, aliased) && t.table == s.table && |t.physical| == |s.physical|
    ensures BytesShow(m.(stored := Seen(m, t, aliased)), t, aliased)
  {
    var after := m.(stored := Seen(m, t, aliased));
    forall a: nat | Private(after, aliased, a) ensures Cell(t, a) < |t.physical| && t.physical[Cell(t, a)] == after.Byte(a) {
      SameCell(m, after, s, t, aliased, a);
      assert Private(m, aliased, a) && a < TWO32;
    }
  }

  /** Some pages show RAM from its start, in order. */
  ghost predicate Window(s: Space, aliased: set<nat>, first: nat) {
    forall page: nat :: page in aliased ==> first <= page && s.Get(page).physicalPage == page - first
  }

  /** A write through such pages reaches exactly its run of physical bytes. */
  lemma WindowStores(m: Mapped, s: Space, next: nat, aliased: set<nat>, first: nat, address: u32, data: seq<u8>, x: nat)
    requires TableShows(m, s) && Sized(m, s, next) && Window(s, aliased, first) && data != [] && s.Store(address, data).Ok?
    requires forall page: nat :: Touches(address, |data|, page) ==> page in aliased
    requires x < |s.physical|
    ensures first * PAGE <= address && |s.Store(address, data).value.physical| == |s.physical|
    ensures s.Store(address, data).value.physical[x] ==
            if InRun(address - first * PAGE, |data|, x) then data[x - (address - first * PAGE)] else s.physical[x]
  {
    StoreFacts(s, address, data);
    hide TableShows, Sized, Cell, Put, Touches, Window;
    var cells := s.TranslateAll(address, |data|, WriteAccess).value;
    forall i | 0 <= i < |cells| ensures first * PAGE <= address + i && cells[i] == address + i - first * PAGE {
      RangeCells(m, s, next, address, |data|, WriteAccess, i);
      TouchesByte(address, |data|, i);
      WindowCell(s, aliased, first, address + i);
    }
    assert cells[0] == address - first * PAGE;
    PutGet(s.physical, cells, data, x);
    if InRun(address - first * PAGE, |data|, x) { assert cells[x - (address - first * PAGE)] == x; }
  }

  lemma WindowCell(s: Space, aliased: set<nat>, first: nat, a: nat)
    requires Window(s, aliased, first) && a / PAGE in aliased
    ensures first * PAGE <= a && Cell(s, a) == a - first * PAGE
  {}

  // --- when mappings are zeroed --------------------------------------------------------------------------

  /** A page just mapped shows what its physical page holds, zero or not. */
  lemma MappedShowsRam(s: Space, first: nat, count: nat, physical: nat, permissions: Permissions, address: u32)
    requires physical + count <= PAGES && (physical + count) * PAGE <= |s.physical| && permissions.read
    requires InRun(first, count, address / PAGE)
    ensures var cell := FreshCell(first, physical, address);
            cell < |s.physical| && MapRam(s, first, count, physical, permissions).Load(address, 1, ReadAccess) == Ok([s.physical[cell]])
  {
    var t := MapRam(s, first, count, physical, permissions);
    hide MapRam;
    var cell := FreshCell(first, physical, address);
    assert t.Translate(address, ReadAccess) == Ok(cell);
    assert t.TranslateAll(address + 1, 0, ReadAccess) == Ok([]);
    assert t.TranslateAll(address, 1, ReadAccess) == Ok([cell] + []);
    assert t.Load(address, 1, ReadAccess).value == [s.physical[cell]];
  }

  /**
   A byte written through an alias to the physical page next in line is still
   there when that page is mapped: the mapping is not zeroed.
   */
  lemma WindowWriteShows(m: Mapped, s: Space, next: nat, aliased: set<nat>, window: u32, value: u8, first: nat, permissions: Permissions)
    requires Represents(m, s, next, aliased) && m.Writable(window / PAGE) && s.Get(window / PAGE).physicalPage == next
    requires m.available > 0 && first < PAGES && permissions.read
    ensures s.Store(window, [value]).Ok? && next + 1 <= PAGES
    ensures MapRam(s.Store(window, [value]).value, first, 1, next, permissions).Load(first * PAGE + window % PAGE, 1, ReadAccess) == Ok([value])
  {
    SizedBound(m, s, next);
    TranslatesWhen(m, s, next, window, WriteAccess);
    hide MapRam, Put;
    assert s.TranslateAll(window + 1, 0, WriteAccess) == Ok([]);
    assert s.TranslateAll(window, 1, WriteAccess) == Ok([Cell(s, window)] + []);
    StoreFacts(s, window, [value]);
    PutGet(s.physical, [Cell(s, window)], [value], Cell(s, window));
    var t := s.Store(window, [value]).value;
    var address := first * PAGE + window % PAGE;
    DivUnique(address, PAGE, first, window % PAGE);
    MappedShowsRam(t, first, 1, next, permissions, address);
  }

  /** Every byte of a run reads zero. */
  ghost predicate ReadsZero(s: Space, first: nat, count: nat) {
    forall address: u32 :: InRun(first, count, address / PAGE) ==> s.Load(address, 1, ReadAccess) == Ok([0])
  }

  /** The physical bytes of some pages are zero. */
  ghost predicate PagesZero(s: Space, physical: nat, count: nat) {
    forall x :: physical * PAGE <= x < (physical + count) * PAGE && x < |s.physical| ==> s.physical[x] == 0
  }

  /** A mapping reads as zeros if and only if the physical pages it is given are zero, wherever they come from. */
  lemma ZeroedExactly(s: Space, first: nat, count: nat, physical: nat, permissions: Permissions)
    requires first + count <= PAGES && physical + count <= PAGES && (physical + count) * PAGE <= |s.physical| && permissions.read
    ensures ReadsZero(MapRam(s, first, count, physical, permissions), first, count) <==> PagesZero(s, physical, count)
  {
    hide MapRam;
    var t := MapRam(s, first, count, physical, permissions);
    if PagesZero(s, physical, count) {
      forall address: u32 | InRun(first, count, address / PAGE) ensures t.Load(address, 1, ReadAccess) == Ok([0]) {
        MappedShowsRam(s, first, count, physical, permissions, address);
        FreshBounds(first, count, physical, address);
      }
    }
    if ReadsZero(t, first, count) {
      forall x | physical * PAGE <= x < (physical + count) * PAGE ensures s.physical[x] == 0 {
        var address := x - physical * PAGE + first * PAGE;
        CellAddress(first, count, physical, x);
        MappedShowsRam(s, first, count, physical, permissions, address);
        assert t.Load(address, 1, ReadAccess) == Ok([s.physical[x]]);
      }
    }
  }

  lemma FreshBounds(first: nat, count: nat, physical: nat, address: nat)
    requires InRun(first, count, address / PAGE)
    ensures physical * PAGE <= FreshCell(first, physical, address) < (physical + count) * PAGE
  {}

  lemma CellAddress(first: nat, count: nat, physical: nat, x: nat)
    requires physical * PAGE <= x < (physical + count) * PAGE && first + count <= PAGES
    ensures var address := x - physical * PAGE + first * PAGE;
            0 <= address < TWO32 && InRun(first, count, address / PAGE) && FreshCell(first, physical, address) == x
  {
    var offset := x - physical * PAGE;
    DivMod(offset, PAGE);
    DivUnique(offset + first * PAGE, PAGE, offset / PAGE + first, offset % PAGE);
  }

  /** The last byte a run of stores puts in a cell is the one that stays. */
  ghost predicate LastAt(cells: seq<nat>, i: nat) { i < |cells| && forall j :: i < j < |cells| ==> cells[j] != cells[i] }

  lemma {:induction false} PutLast(physical: seq<u8>, cells: seq<nat>, data: seq<u8>, x: nat)
    requires |cells| == |data| && (forall i :: 0 <= i < |cells| ==> cells[i] < |physical|) && x < |physical|
    ensures x !in cells ==> Put(physical, cells, data)[x] == physical[x]
    ensures x in cells ==> exists i :: 0 <= i < |cells| && LastAt(cells, i) && cells[i] == x && Put(physical, cells, data)[x] == data[i]
    decreases |data|
  {
    if data != [] {
      var front := physical[cells[0] := data[0]];
      PutLast(front, cells[1..], data[1..], x);
      if x in cells[1..] {
        var i :| 0 <= i < |cells[1..]| && LastAt(cells[1..], i) && cells[1..][i] == x && Put(front, cells[1..], data[1..])[x] == data[1..][i];
        forall j | i + 1 < j < |cells| ensures cells[j] != cells[i + 1] { assert cells[j] == cells[1..][j - 1]; }
        assert LastAt(cells, i + 1) && cells[i + 1] == x && data[i + 1] == data[1..][i];
      } else if cells[0] == x {
        forall j | 0 < j < |cells| ensures cells[j] != cells[0] { assert cells[j] == cells[1..][j - 1]; }
        assert LastAt(cells, 0);
      } else {
        assert cells == [cells[0]] + cells[1..];
      }
    }
  }

  lemma LastUnique(cells: seq<nat>, i: nat, j: nat)
    requires LastAt(cells, i) && LastAt(cells, j) && cells[i] == cells[j]
    ensures i == j
  {}

  /** The bytes stores leave at or past a place are zero. */
  ghost predicate PutsZeros(cells: seq<nat>, data: seq<u8>, low: nat)
    requires |cells| == |data|
  {
    forall i :: 0 <= i < |cells| && LastAt(cells, i) && cells[i] >= low ==> data[i] == 0
  }

  lemma PutKeepsZero(physical: seq<u8>, cells: seq<nat>, data: seq<u8>, low: nat)
    requires |cells| == |data| && (forall i :: 0 <= i < |cells| ==> cells[i] < |physical|) && ZeroFrom(physical, low)
    ensures ZeroFrom(Put(physical, cells, data), low) <==> PutsZeros(cells, data, low)
  {
    hide Put, LastAt;
    var after := Put(physical, cells, data);
    if PutsZeros(cells, data, low) {
      forall x | low <= x < |after| ensures after[x] == 0 { PutLast(physical, cells, data, x); }
    }
    if ZeroFrom(after, low) {
      forall i | 0 <= i < |cells| && LastAt(cells, i) && cells[i] >= low ensures data[i] == 0 {
        assert cells[i] in cells;
        PutLast(physical, cells, data, cells[i]);
        var j :| 0 <= j < |cells| && LastAt(cells, j) && cells[j] == cells[i] && after[cells[i]] == data[j];
        LastUnique(cells, i, j);
      }
    }
  }

  /** A write keeps RAM zero past the cursor if and only if the bytes it leaves there are zero. */
  lemma FreeKeptExactly(s: Space, next: nat, address: u32, data: seq<u8>)
    requires FreeZeroed(s, next) && data != [] && s.Store(address, data).Ok?
    ensures address + |data| <= TWO32 && s.TranslateAll(address, |data|, WriteAccess).Ok?
    ensures FreeZeroed(s.Store(address, data).value, next) <==>
            PutsZeros(s.TranslateAll(address, |data|, WriteAccess).value, data, next * PAGE)
  {
    hide Put, PutsZeros;
    StoreFacts(s, address, data);
    PutKeepsZero(s.physical, s.TranslateAll(address, |data|, WriteAccess).value, data, next * PAGE);
  }

  /** Writes to private pages never reach past the cursor. */
  lemma PrivateKeepsFree(m: Mapped, s: Space, next: nat, aliased: set<nat>, address: u32, data: seq<u8>)
    requires Represents(m, s, next, aliased) && FreeZeroed(s, next) && data != [] && s.Store(address, data).Ok?
    requires forall page: nat :: Touches(address, |data|, page) ==> page !in aliased
    ensures FreeZeroed(s.Store(address, data).value, next)
  {
    StoreFacts(s, address, data);
    hide TableShows, Sized, Owned, BytesShow, FreeZeroed, Cell, Put, Private, Touches;
    var cells := s.TranslateAll(address, |data|, WriteAccess).value;
    forall i | 0 <= i < |cells| ensures cells[i] < next * PAGE {
      RangeCells(m, s, next, address, |data|, WriteAccess, i);
      TouchesByte(address, |data|, i);
      TouchedPrivate(m, aliased, address + i);
      BelowCursor(m, s, next, aliased, address + i);
    }
    FreeKeptExactly(s, next, address, data);
  }
}
