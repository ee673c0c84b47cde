/**
 The software address space (software.rs): a page table over physical RAM with
 a cursor of physical pages handed out, updated in place. The methods are
 stated on the view the page table represents: zeroed anonymous mappings,
 checked all-or-nothing writes, page protection and the physical window.
 */
module AddressSpace {
  import opened Words
  import opened GuestMemory
  import opened SpaceView

  const WINDOW_PAGE: int := 0x8_0000

  datatype SpaceError =
    | InvalidPhysicalSize
    | RangeBeyondGuest
    | AlreadyMapped(page: nat)
    | OutOfPhysicalMemory(pages: nat)
    | UnmappedPage(page: nat)
    | Access(error: MemoryError)

  /** A size RAM can have: whole pages, at least one, at most the guest address space. */
  predicate RamSize(bytes: nat) { 0 < bytes <= TWO32 && bytes % PAGE == 0 }

  class SoftwareAddressSpace {
    var space: Space
    /** The first physical page not handed out. */
    var next: nat
    /** What the page table and RAM show. */
    ghost var mapped: Mapped
    /** The pages of the physical window, each an alias of a page of RAM. */
    ghost var aliased: set<nat>

    ghost predicate Valid() reads this { Represents(mapped, space, next, aliased) && Window(space, aliased, WINDOW_PAGE) }

    /** RAM past the cursor is zero, so that new mappings are. */
    ghost predicate Fresh() reads this { FreeZeroed(space, next) }

    /** A write through these pages reaches no other mapping's bytes. */
    ghost predicate Unaliased(address: nat, length: nat) reads this {
      forall page: nat :: Touches(address, length, page) ==> page !in aliased
    }

    /** A write stays in the physical window. */
    ghost predicate InWindow(address: nat, length: nat) reads this {
      forall page: nat :: Touches(address, length, page) ==> page in aliased
    }

    constructor (bytes: nat)
      requires RamSize(bytes)
      ensures Valid() && Fresh() && mapped == Mapped(map[], map[], bytes / PAGE) && next == 0 && aliased == {}
      ensures space == Space(map[], seq(bytes, _ => 0), map[])
    {
      space := Space(map[], seq(bytes, _ => 0), map[]);
      next := 0;
      mapped := Mapped(map[], map[], bytes / PAGE);
      aliased := {};
    }

    /** A new space maps nothing; sizes that are not whole pages are refused. */
    static method New(bytes: nat) returns (r: Result<SoftwareAddressSpace, SpaceError>)
      ensures r.Ok? <==> RamSize(bytes)
      ensures r.Ok? ==> fresh(r.value) && r.value.Valid() && r.value.Fresh() && r.value.mapped == Mapped(map[], map[], bytes / PAGE)
      ensures r.Ok? ==> r.value.aliased == {} && r.value.next == 0 && |r.value.space.physical| == bytes
    {
      if !RamSize(bytes) { return Err(InvalidPhysicalSize); }
      var created := new SoftwareAddressSpace(bytes);
      return Ok(created);
    }

    /**
     Maps pages onto the next physical ones, all of them or none; they show what
     RAM holds there, which is zero in a fresh space. Ranges lie in the guest
     address space.
     */
    method MapAnonymous(first: nat, count: nat, permissions: Permissions) returns (r: Result<(), SpaceError>)
      requires Valid() && first + count <= PAGES
      modifies this
      ensures Valid() && aliased == old(aliased)
      ensures r.Ok? <==> count <= old(mapped).available && forall page :: first <= page < first + count ==> page !in old(mapped).permissions
      ensures r.Ok? ==> mapped == WithFresh(old(mapped), old(space), old(next), first, count, permissions)
      ensures old(Fresh()) ==> Fresh() && (r.Ok? ==> mapped.stored == old(mapped).stored)
      ensures r.Ok? ==> old(next) + count <= PAGES && next == old(next) + count && space == MapRam(old(space), first, count, old(next), permissions)
      ensures r.Err? ==> mapped == old(mapped) && space == old(space) && next == old(next)
    {
      hide WithRun, MapRam, TableShows, Owned, BytesShow, Window, Sized;
      PagesLeft(mapped, space, next);
      if next + count > |space.physical| / PAGE { return Err(OutOfPhysicalMemory(count)); }
      for page := first to first + count
        invariant unchanged(this)
        invariant forall p :: first <= p < page ==> p !in mapped.permissions
      {
        ShowsPage(mapped, space, page);
        if space.Get(page).valid { return Err(AlreadyMapped(page)); }
      }
      MapShows(mapped, space, next, aliased, first, count, permissions);
      MapWindow(mapped, space, aliased, first, count, next, permissions);
      if Fresh() { StillFresh(mapped, space, next, first, count); }
      mapped := WithFresh(mapped, space, next, first, count, permissions);
      space := MapRam(space, first, count, next, permissions);
      next := next + count;
      return Ok(());
    }

    /**
     Writes every byte or none. A write that reaches only private pages changes
     what is shown by exactly its bytes; one through the physical window shows
     wherever the physical bytes it reaches are mapped.
     */
    method Write(address: u32, data: seq<u8>) returns (r: Result<(), SpaceError>)
      requires Valid()
      modifies this
      ensures r.Ok? <==> forall page: nat :: Touches(address, |data|, page) ==> old(mapped).Writable(page)
      ensures Valid() && next == old(next) && aliased == old(aliased)
      ensures r.Ok? ==> old(space).Store(address, data) == Ok(space) && mapped == old(mapped).(stored := mapped.stored)
      ensures r.Ok? && old(Unaliased(address, |data|)) ==> mapped.stored == old(mapped).stored + DataMap(address, data)
      ensures old(Fresh() && Unaliased(address, |data|)) ==> Fresh()
      ensures r.Ok? && data != [] && old(InWindow(address, |data|)) ==>
                forall a: nat :: Private(old(mapped), aliased, a) ==>
                  mapped.Byte(a) == WindowByte(old(mapped), old(space), address - WINDOW_PAGE * PAGE, data, a)
      ensures r.Err? ==> mapped == old(mapped) && space == old(space)
    {
      hide DataMap, TableShows, Owned, BytesShow, Window, Sized, Touches, Seen, WindowByte, FreeZeroed;
      StoresWhen(mapped, space, next, address, data);
      var stored := space.Store(address, data);
      if stored.Err? { return Err(Access(stored.error)); }
      SameWindow(space, stored.value, aliased);
      if data == [] {
        NoData(mapped, address);
      } else if Unaliased(address, |data|) {
        StoreShows(mapped, space, next, aliased, address, data);
        if Fresh() { PrivateKeepsFree(mapped, space, next, aliased, address, data); }
        if InWindow(address, |data|) { NotBoth(aliased, address, |data|); }
        mapped := mapped.(stored := mapped.stored + DataMap(address, data));
      } else {
        RefreshedShows(mapped, space, stored.value, next, aliased);
        if InWindow(address, |data|) {
          forall a: nat | Private(mapped, aliased, a)
            ensures mapped.(stored := Seen(mapped, stored.value, aliased)).Byte(a) ==
                    WindowByte(mapped, space, address - WINDOW_PAGE * PAGE, data, a)
          {
            WindowShows(mapped, space, next, aliased, address, data, a);
          }
        }
        mapped := mapped.(stored := Seen(mapped, stored.value, aliased));
      }
      space := stored.value;
      return Ok(());
    }

    /** Changes the permissions of mapped pages, all of them or none. */
    method Protect(first: nat, count: nat, permissions: Permissions) returns (r: Result<(), SpaceError>)
      requires Valid() && first + count <= PAGES
      modifies this
      ensures Valid() && aliased == old(aliased)
      ensures r.Ok? <==> forall page :: first <= page < first + count ==> page in old(mapped).permissions
      ensures r.Ok? ==> mapped == old(mapped).(permissions := WithRun(old(mapped).permissions, first, count, permissions))
      ensures r.Ok? ==> space == WithPermissions(old(space), first, count, permissions)
      ensures next == old(next) && (old(Fresh()) ==> Fresh())
      ensures r.Err? ==> mapped == old(mapped) && space == old(space)
    {
      hide WithRun, WithPermissions, TableShows, Owned, BytesShow, Window, Sized;
      for page := first to first + count
        invariant unchanged(this)
        invariant forall p :: first <= p < page ==> p in mapped.permissions
      {
        ShowsPage(mapped, space, page);
        if !space.Get(page).valid { return Err(UnmappedPage(page)); }
      }
      ProtectShows(mapped, space, next, aliased, first, count, permissions);
      ProtectWindow(space, aliased, first, count, permissions);
      mapped := mapped.(permissions := WithRun(mapped.permissions, first, count, permissions));
      space := WithPermissions(space, first, count, permissions);
      return Ok(());
    }

    /** Maps the physical window, which shows all of RAM a second time, read-write. */
    method MapPhysicalWindow() returns (r: Result<(), SpaceError>)
      requires Valid() && aliased == {}
      modifies this
      ensures Valid()
      ensures var count := |old(space).physical| / PAGE;
              && (r.Ok? <==> WINDOW_PAGE + count <= PAGES && forall page :: WINDOW_PAGE <= page < WINDOW_PAGE + count ==> page !in old(mapped).permissions)
              && (r.Ok? ==> aliased == RunSet(WINDOW_PAGE, count)
                            && mapped == old(mapped).(permissions := WithRun(old(mapped).permissions, WINDOW_PAGE, count, READ_WRITE)))
      ensures r.Ok? ==> RamShown(space)
      ensures next == old(next) && space.physical == old(space).physical && (old(Fresh()) ==> Fresh())
      ensures r.Err? ==> mapped == old(mapped) && aliased == {}
    {
      hide WithRun, MapRam, TableShows, Owned, BytesShow, Window, Sized, RunSet, RamShown;
      PagesLeft(mapped, space, next);
      var count := |space.physical| / PAGE;
      if WINDOW_PAGE + count > PAGES { return Err(RangeBeyondGuest); }
      for page := WINDOW_PAGE to WINDOW_PAGE + count
        invariant unchanged(this)
        invariant forall p :: WINDOW_PAGE <= p < page ==> p !in mapped.permissions
      {
        ShowsPage(mapped, space, page);
        if space.Get(page).valid { return Err(AlreadyMapped(page)); }
      }
      AliasShows(mapped, space, next, WINDOW_PAGE, READ_WRITE);
      IsWindow(space, count);
      mapped := mapped.(permissions := WithRun(mapped.permissions, WINDOW_PAGE, count, READ_WRITE));
      WindowReads(space, count);
      space := MapRam(space, WINDOW_PAGE, count, 0, READ_WRITE);
      aliased := RunSet(WINDOW_PAGE, count);
      return Ok(());
    }
  }

  /** Physical byte `a` is read at address 0x8000_0000 + `a`. */
  ghost predicate RamShown(s: Space) {
    forall a: nat :: a < |s.physical| ==> 0x8000_0000 + a < TWO32 && s.Load(0x8000_0000 + a, 1, ReadAccess) == Ok([s.physical[a]])
  }

  lemma WindowReads(s: Space, count: nat)
    requires |s.physical| == count * PAGE && WINDOW_PAGE + count <= PAGES
    ensures RamShown(MapRam(s, WINDOW_PAGE, count, 0, READ_WRITE))
  {
    hide MapRam;
    forall a: nat | a < |s.physical|
      ensures 0x8000_0000 + a < TWO32
      ensures MapRam(s, WINDOW_PAGE, count, 0, READ_WRITE).Load(0x8000_0000 + a, 1, ReadAccess) == Ok([s.physical[a]])
    {
      WindowPlace(a, count);
      MappedShowsRam(s, WINDOW_PAGE, count, 0, READ_WRITE, 0x8000_0000 + a);
    }
    SamePhysical(s, count);
  }

  lemma SamePhysical(s: Space, count: nat)
    requires count <= PAGES
    ensures MapRam(s, WINDOW_PAGE, count, 0, READ_WRITE).physical == s.physical
  {}

  lemma WindowPlace(a: nat, count: nat)
    requires a < count * PAGE && WINDOW_PAGE + count <= PAGES
    ensures 0x8000_0000 + a < TWO32 && InRun(WINDOW_PAGE, count, (0x8000_0000 + a) / PAGE) && FreshCell(WINDOW_PAGE, 0, 0x8000_0000 + a) == a
  {}

  /** What a private address shows after a write of some physical bytes. */
  function WindowByte(m: Mapped, s: Space, start: int, data: seq<u8>, a: nat): u8 {
    if start <= Cell(s, a) < start + |data| then data[Cell(s, a) - start] else m.Byte(a)
  }

  lemma WindowShows(m: Mapped, s: Space, next: nat, aliased: set<nat>, address: u32, data: seq<u8>, a: nat)
    requires Represents(m, s, next, aliased) && Window(s, aliased, WINDOW_PAGE) && data != [] && s.Store(address, data).Ok?
    requires forall page: nat :: Touches(address, |data|, page) ==> page in aliased
    requires Private(m, aliased, a)
    ensures m.(stored := Seen(m, s.Store(address, data).value, aliased)).Byte(a) == WindowByte(m, s, address - WINDOW_PAGE * PAGE, data, a)
  {
    hide TableShows, Owned, Sized, Window, Cell, Touches, Represents;
    Parts(m, s, next, aliased, a);
    SameCell(m, m, s, s.Store(address, data).value, aliased, a);
    WindowStores(m, s, next, aliased, WINDOW_PAGE, address, data, Cell(s, a));
  }

  /** What representing says of one private address. */
  lemma Parts(m: Mapped, s: Space, next: nat, aliased: set<nat>, a: nat)
    requires Represents(m, s, next, aliased) && Private(m, aliased, a)
    ensures TableShows(m, s) && Sized(m, s, next) && a < TWO32
    ensures Cell(s, a) < |s.physical| && s.physical[Cell(s, a)] == m.Byte(a)
  {}

  lemma NotBoth(aliased: set<nat>, address: nat, length: nat)
    requires length > 0 && (forall page: nat :: Touches(address, length, page) ==> page !in aliased)
    ensures exists page: nat :: Touches(address, length, page) && page !in aliased
  {
    assert Touches(address, length, address / PAGE);
  }

  lemma SameWindow(s: Space, t: Space, aliased: set<nat>)
    requires Window(s, aliased, WINDOW_PAGE) && t.table == s.table
    ensures Window(t, aliased, WINDOW_PAGE)
  {
    assert forall page: nat :: s.Get(page) == t.Get(page);
  }

  /** A mapping of free pages leaves the window where it was. */
  lemma MapWindow(m: Mapped, s: Space, aliased: set<nat>, first: nat, count: nat, physical: nat, permissions: Permissions)
    requires Window(s, aliased, WINDOW_PAGE) && aliased <= m.permissions.Keys && physical + count <= PAGES
    requires forall page :: first <= page < first + count ==> page !in m.permissions
    ensures Window(MapRam(s, first, count, physical, permissions), aliased, WINDOW_PAGE)
  {
    hide MapRam;
  }

  lemma ProtectWindow(s: Space, aliased: set<nat>, first: nat, count: nat, permissions: Permissions)
    requires Window(s, aliased, WINDOW_PAGE)
    ensures Window(WithPermissions(s, first, count, permissions), aliased, WINDOW_PAGE)
  {
    hide WithPermissions;
  }

  lemma IsWindow(s: Space, count: nat)
    requires count <= PAGES
    ensures Window(MapRam(s, WINDOW_PAGE, count, 0, READ_WRITE), RunSet(WINDOW_PAGE, count), WINDOW_PAGE)
  {
    hide MapRam;
  }

  lemma StillFresh(m: Mapped, s: Space, next: nat, first: nat, count: nat)
    requires FreeZeroed(s, next)
    ensures FreeZeroed(s, next + count) && m.stored + Found(s, first, count, next) == m.stored
  {
    FoundNothing(s, first, count, next);
  }

  lemma PagesLeft(m: Mapped, s: Space, next: nat)
    requires Sized(m, s, next)
    ensures |s.physical| / PAGE == next + m.available <= PAGES && |s.physical| == |s.physical| / PAGE * PAGE
  {}

  lemma ShowsPage(m: Mapped, s: Space, page: nat)
    requires TableShows(m, s)
    ensures page in m.permissions <==> s.Get(page).valid
  {}

  lemma NoData(m: Mapped, address: nat)
    ensures m.(stored := m.stored + DataMap(address, [])) == m
  {
    assert m.stored + DataMap(address, []) == m.stored;
  }

  /** A write goes through exactly when every page it touches is writable. */
  lemma StoresWhen(m: Mapped, s: Space, next: nat, address: u32, data: seq<u8>)
    requires TableShows(m, s) && Sized(m, s, next)
    ensures s.Store(address, data).Ok? <==> forall page: nat :: Touches(address, |data|, page) ==> m.Writable(page)
  {
    hide TableShows, Sized;
    if data != [] {
      if address + |data| > TWO32 {
        OverflowUnmapped(m, s, address, |data|);
      } else {
        RangeTranslates(m, s, next, address, |data|, WriteAccess);
      }
    }
  }

  // --- a mapping that is not zeroed ----------------------------------------------------------------------

  /** The window's first page is writable, page zero is free, and a write to the first byte stays in the window. */
  lemma OnlyWindow(n: nat)
    requires n > 0
    ensures var m := Mapped(WithRun(map[], WINDOW_PAGE, n, READ_WRITE), map[], n);
            && 0 !in m.permissions
            && forall page: nat :: Touches(WINDOW_PAGE * PAGE, 1, page) ==> m.Writable(page) && page in RunSet(WINDOW_PAGE, n)
  {
    WithRunIs(map[], WINDOW_PAGE, n, READ_WRITE);
    assert forall page: nat :: Touches(WINDOW_PAGE * PAGE, 1, page) ==> page == WINDOW_PAGE && InRun(WINDOW_PAGE, n, page);
  }

  lemma FirstByteWritten(m: Mapped, s: Space, next: nat, aliased: set<nat>, value: u8)
    requires Represents(m, s, next, aliased) && Window(s, aliased, WINDOW_PAGE) && |s.physical| > 0
    requires s.Store(WINDOW_PAGE * PAGE, [value]).Ok?
    requires forall page: nat :: Touches(WINDOW_PAGE * PAGE, 1, page) ==> page in aliased
    ensures |s.Store(WINDOW_PAGE * PAGE, [value]).value.physical| == |s.physical|
    ensures s.Store(WINDOW_PAGE * PAGE, [value]).value.physical[0] == value
  {
    hide TableShows, Owned, Sized, BytesShow, Window, Touches;
    WindowStores(m, s, next, aliased, WINDOW_PAGE, WINDOW_PAGE * PAGE, [value], 0);
  }

  /**
   Where the promise of zeroed mappings fails: in a new space of any size that
   has a window, a byte written through the window is found in the mapping made
   next.
   */
  method WindowThenMap(bytes: nat, value: u8) returns (shown: Result<seq<u8>, MemoryError>)
    requires RamSize(bytes) && bytes <= WINDOW_PAGE * PAGE
    ensures shown == Ok([value])
  {
    hide Represents, Window, MapRam, WithRun, Found, FreeZeroed, Touches, RunSet, WindowByte, RamShown;
    var created := SoftwareAddressSpace.New(bytes);
    var space := created.value;
    var n := bytes / PAGE;
    assert 0 < n && WINDOW_PAGE + n <= PAGES && |space.space.physical| / PAGE == n;
    var windowed := space.MapPhysicalWindow();
    assert windowed.Ok?;
    OnlyWindow(n);
    ghost var before, s, aliased := space.mapped, space.space, space.aliased;
    var written := space.Write(WINDOW_PAGE * PAGE, [value]);
    assert written.Ok?;
    FirstByteWritten(before, s, 0, aliased, value);
    MappedShowsRam(space.space, 0, 1, 0, READ_WRITE, 0);
    var mapped := space.MapAnonymous(0, 1, READ_WRITE);
    assert mapped.Ok?;
    shown := space.space.Load(0, 1, ReadAccess);
  }
}
