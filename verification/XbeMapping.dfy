/**
 Mapping a checked image (emulator.rs, `map_covered_pages`, `map_xbe`,
 `apply_merged_permissions`) and what it leaves: which pages, which bytes,
 which permissions, whatever order the sections came in.
 */
module XbeMapping {
  import opened Words
  import opened Sorting
  import opened GuestMemory
  import opened SpaceView
  import opened AddressSpace
  import opened XbeLoader

  // --- covered pages -------------------------------------------------------------------

  predicate Covered(extents: seq<Extent>, page: nat) {
    exists e :: e in extents && e.Covers(page)
  }

  predicate Increasing(s: seq<nat>) { forall i, j :: 0 <= i < j < |s| ==> s[i] < s[j] }

  /** The covered pages, sorted and without repeats. */
  method CoveredPages(extents: seq<Extent>) returns (pages: seq<nat>)
    ensures Increasing(pages)
    ensures forall page: nat :: page in pages <==> Covered(extents, page)
  {
    var covered: seq<nat> := [];
    for k := 0 to |extents|
      invariant forall page: nat :: page in covered <==> Covered(extents[..k], page)
    {
      var e := extents[k];
      ghost var before := covered;
      for page := e.FirstPage() to e.LastPage() + 1
        invariant forall p: nat :: p in covered <==> p in before || (e.Covers(p) && p < page)
      {
        covered := covered + [page];
      }
      CoveredMore(extents, k);
    }
    assert extents[..|extents|] == extents;
    var sorted := SortBy(covered, (page: nat) => page);
    SamePages(covered, sorted);
    pages := [];
    for k := 0 to |sorted|
      invariant Increasing(pages)
      invariant forall page :: page in pages <==> page in sorted[..k]
      invariant k > 0 ==> pages != [] && pages[|pages| - 1] == sorted[k - 1]
    {
      if pages == [] || pages[|pages| - 1] != sorted[k] {
        Appended(pages, sorted, k);
        pages := pages + [sorted[k]];
      }
      assert sorted[..k + 1] == sorted[..k] + [sorted[k]];
    }
    assert sorted[..|sorted|] == sorted;
  }

  lemma CoveredMore(extents: seq<Extent>, k: nat)
    requires k < |extents|
    ensures forall page: nat :: Covered(extents[..k + 1], page) <==> Covered(extents[..k], page) || extents[k].Covers(page)
  {
    assert extents[..k + 1] == extents[..k] + [extents[k]];
    forall page: nat ensures Covered(extents[..k + 1], page) <==> Covered(extents[..k], page) || extents[k].Covers(page) {
      assert extents[k] in extents[..k + 1];
    }
  }

  lemma SamePages(a: seq<nat>, b: seq<nat>)
    requires multiset(a) == multiset(b)
    ensures forall page :: page in a <==> page in b
  {
    assert forall page :: page in a <==> page in multiset(a);
    assert forall page :: page in b <==> page in multiset(b);
  }

  lemma Appended(pages: seq<nat>, sorted: seq<nat>, k: nat)
    requires Increasing(pages) && k < |sorted| && SortedBy(sorted, (page: nat) => page)
    requires forall page :: page in pages <==> page in sorted[..k]
    requires pages != [] ==> pages[|pages| - 1] != sorted[k]
    ensures Increasing(pages + [sorted[k]])
  {
    if pages != [] {
      var last := pages[|pages| - 1];
      assert last in sorted[..k];
      var j :| 0 <= j < k && sorted[j] == last;
      var key := (page: nat) => page;
      assert key(sorted[j]) <= key(sorted[k]);
    }
  }

  ghost function CoveredSet(extents: seq<Extent>): set<nat> {
    set page | 0 <= page < 0x10_0000 && Covered(extents, page)
  }

  /** A permission map with some pages set. */
  function WithPages(permissions: map<nat, Permissions>, pages: seq<nat>, value: Permissions): map<nat, Permissions> {
    permissions + map page | page in pages :: value
  }

  /** The covered pages, listed, are as many as the set of them. */
  lemma CoveredCount(extents: seq<Extent>, pages: seq<nat>)
    requires AllFit(extents) && Increasing(pages) && forall page: nat :: page in pages <==> Covered(extents, page)
    ensures |pages| == |CoveredSet(extents)|
  {
    forall page: nat | Covered(extents, page) ensures page < 0x10_0000 {
      var e :| e in extents && e.Covers(page);
      assert e.Fits();
    }
    DistinctCount(pages, CoveredSet(extents));
  }

  lemma {:induction false} DistinctCount(s: seq<nat>, all: set<nat>)
    requires Increasing(s) && forall x: nat :: x in all <==> x in s
    ensures |all| == |s|
    decreases |s|
  {
    if s == [] {
      assert all == {};
    } else {
      var front, last := s[..|s| - 1], s[|s| - 1];
      assert s == front + [last] && last !in front;
      DistinctCount(front, all - {last});
    }
  }

  // --- runs -------------------------------------------------------------------------------

  /** Consecutive pages from one index to another. */
  predicate IsRun(pages: seq<nat>, from: nat, stop: nat) {
    from < stop <= |pages| && forall k :: from <= k < stop ==> pages[k] == pages[from] + (k - from)
  }

  /** A run of pages is the pages listed between its ends. */
  lemma RunPages(pages: seq<nat>, from: nat, stop: nat, page: nat)
    requires IsRun(pages, from, stop)
    ensures InRun(pages[from], stop - from, page) <==> page in pages[from..stop]
  {
    if InRun(pages[from], stop - from, page) {
      var k := from + (page - pages[from]);
      assert pages[k] == page && pages[from..stop][k - from] == page;
    }
    if page in pages[from..stop] {
      var j :| 0 <= j < stop - from && pages[from..stop][j] == page;
      assert pages[from + j] == page;
    }
  }

  /** Setting one more run extends the pages set so far. */
  lemma RunExtends(permissions: map<nat, Permissions>, pages: seq<nat>, from: nat, stop: nat, value: Permissions)
    requires IsRun(pages, from, stop)
    ensures WithRun(WithPages(permissions, pages[..from], value), pages[from], stop - from, value) ==
            WithPages(permissions, pages[..stop], value)
  {
    var a := WithRun(WithPages(permissions, pages[..from], value), pages[from], stop - from, value);
    var b := WithPages(permissions, pages[..stop], value);
    hide *;
    forall page: nat ensures (page in a <==> page in b) && (page in a ==> a[page] == b[page]) {
      RunAgrees(permissions, pages, from, stop, value, page);
    }
  }

  lemma RunAgrees(permissions: map<nat, Permissions>, pages: seq<nat>, from: nat, stop: nat, value: Permissions, page: nat)
    requires IsRun(pages, from, stop)
    ensures var a := WithRun(WithPages(permissions, pages[..from], value), pages[from], stop - from, value);
            var b := WithPages(permissions, pages[..stop], value);
            (page in a <==> page in b) && (page in a ==> a[page] == b[page])
  {
    var first, count, before, listed := pages[from], stop - from, pages[..from], pages[from..stop];
    RunPages(pages, from, stop, page);
    assert pages[..stop] == before + listed;
    assert page in pages[..stop] <==> page in before || page in listed;
    hide *;
    RunAt(WithPages(permissions, before, value), first, count, value, page);
    PagesSet(permissions, before, value, page);
    PagesSet(permissions, pages[..stop], value, page);
  }

  lemma PagesSet(permissions: map<nat, Permissions>, pages: seq<nat>, value: Permissions, page: nat)
    ensures page in WithPages(permissions, pages, value) <==> page in pages || page in permissions
    ensures page in pages ==> WithPages(permissions, pages, value)[page] == value
    ensures page !in pages && page in permissions ==> WithPages(permissions, pages, value)[page] == permissions[page]
  {}

  /** A run of covered pages lies in the guest address space. */
  lemma RunInGuest(extents: seq<Extent>, pages: seq<nat>, from: nat, stop: nat)
    requires AllFit(extents) && IsRun(pages, from, stop) && forall page: nat :: page in pages <==> Covered(extents, page)
    ensures pages[from] + (stop - from) <= PAGES
  {
    assert pages[stop - 1] in pages;
    var e :| e in extents && e.Covers(pages[stop - 1]);
    assert e.Fits();
  }

  /** Pages mapped in order show RAM from the cursor on; every other byte is as it was. */
  ghost predicate Shows(before: Mapped, s: Space, next: nat, pages: seq<nat>, after: Mapped) {
    && (forall a: nat :: a / PAGE !in pages ==> after.Byte(a) == before.Byte(a))
    && (forall a: nat, k :: 0 <= k < |pages| && pages[k] == a / PAGE ==> after.Byte(a) == RamByte(s, next + k, a))
  }

  /** A byte of a physical page, zero outside RAM. */
  function RamByte(s: Space, page: nat, a: nat): u8 {
    if page * PAGE + a % PAGE < |s.physical| then s.physical[page * PAGE + a % PAGE] else 0
  }

  /** One more run, mapped to the next physical pages. */
  lemma RunShows(before: Mapped, now: Mapped, s: Space, t: Space, next: nat, pages: seq<nat>, from: nat, stop: nat)
    requires IsRun(pages, from, stop) && Increasing(pages) && Shows(before, s, next, pages[..from], now) && t.physical == s.physical
    requires now.Valid() && stop - from <= now.available
    requires forall k :: from <= k < stop ==> pages[k] !in now.permissions
    ensures Shows(before, s, next, pages[..stop], WithFresh(now, t, next + from, pages[from], stop - from, READ_WRITE))
  {
    hide WithRun, Found;
    var after := WithFresh(now, t, next + from, pages[from], stop - from, READ_WRITE);
    assert pages[..stop] == pages[..from] + pages[from..stop];
    forall a: nat ensures a / PAGE !in pages[from..stop] ==> after.Byte(a) == now.Byte(a) {
      RunPages(pages, from, stop, a / PAGE);
      FoundIs(t, pages[from], stop - from, next + from, a);
    }
    forall a: nat, k | 0 <= k < stop && pages[k] == a / PAGE ensures after.Byte(a) == RamByte(s, next + k, a) {
      if k < from {
        assert pages[..from][k] == a / PAGE;
        assert a / PAGE !in pages[from..stop];
      } else {
        RunByte(now, t, next, pages, from, stop, a, k);
      }
    }
    forall a: nat, k | 0 <= k < |pages[..stop]| && pages[..stop][k] == a / PAGE ensures after.Byte(a) == RamByte(s, next + k, a) {
      assert pages[k] == a / PAGE;
    }
  }

  lemma RunByte(now: Mapped, t: Space, next: nat, pages: seq<nat>, from: nat, stop: nat, a: nat, k: nat)
    requires IsRun(pages, from, stop) && from <= k < stop && pages[k] == a / PAGE && pages[k] !in now.permissions
    requires now.Valid() && stop - from <= now.available
    ensures WithFresh(now, t, next + from, pages[from], stop - from, READ_WRITE).Byte(a) == RamByte(t, next + k, a)
  {
    hide WithRun, Found;
    FoundIs(t, pages[from], stop - from, next + from, a);
    assert pages[k] == pages[from] + (k - from);
    assert a !in now.stored;
    assert FreshCell(pages[from], next + from, a) == (next + k) * PAGE + a % PAGE;
  }

  /** Maps the covered pages read-write, one maximal run at a time. */
  method MapCoveredPages(space: SoftwareAddressSpace, extents: seq<Extent>) returns (r: Result<seq<nat>, LoadError>)
    requires space.Valid() && AllFit(extents)
    modifies space
    ensures space.Valid() && space.aliased == old(space.aliased) && (old(space.Fresh()) ==> space.Fresh())
    ensures r.Ok? <==> Room(old(space.mapped), extents)
    ensures r.Err? ==> PartlyMapped(old(space.mapped), extents, space.mapped)
    ensures r.Ok? ==> |r.value| <= old(space.mapped).available
    ensures r.Ok? ==> Increasing(r.value) && forall page: nat :: page in r.value <==> Covered(extents, page)
    ensures r.Ok? ==> space.mapped.permissions == WithPages(old(space.mapped).permissions, r.value, READ_WRITE)
                      && space.mapped.available == old(space.mapped).available - |r.value|
    ensures r.Ok? ==> Shows(old(space.mapped), old(space.space), old(space.next), r.value, space.mapped)
  {
    hide Represents, Window, Covered, AllFit, WithRun, WithPages, IsRun, Shows, Found, MapRam, FreeZeroed;
    var pages := CoveredPages(extents);
    CoveredCount(extents, pages);
    ghost var before, s, next := space.mapped, space.space, space.next;
    var index := 0;
    NoPages(before, s, next, pages);
    while index < |pages|
      invariant 0 <= index <= |pages| && index <= before.available && space.Valid() && space.aliased == old(space.aliased)
      invariant old(space.Fresh()) ==> space.Fresh()
      invariant space.next == next + index && space.space.physical == s.physical
      invariant forall k :: 0 <= k < index ==> pages[k] !in before.permissions
      invariant space.mapped.permissions == WithPages(before.permissions, pages[..index], READ_WRITE)
      invariant space.mapped.available == before.available - index
      invariant Shows(before, s, next, pages[..index], space.mapped)
    {
      var stop := RunEnd(pages, index);
      ghost var now, t := space.mapped, space.space;
      RunInGuest(extents, pages, index, stop);
      var mapped := space.MapAnonymous(pages[index], stop - index, READ_WRITE);
      RunExtends(before.permissions, pages, index, stop, READ_WRITE);
      RunFree(before.permissions, pages, index, stop, READ_WRITE);
      if mapped.Err? {
        SomePages(before, s, next, extents, pages, index, now);
        return Err(Memory(mapped.error));
      }
      RunUnmapped(now.permissions, pages, index, stop);
      ViewValid(now, t, space.next - (stop - index), space.aliased);
      RunShows(before, now, s, t, next, pages, index, stop);
      index := stop;
    }
    assert pages[..|pages|] == pages;
    return Ok(pages);
  }

  lemma ViewValid(m: Mapped, s: Space, next: nat, aliased: set<nat>)
    requires Represents(m, s, next, aliased)
    ensures m.Valid()
  {}

  lemma RunUnmapped(permissions: map<nat, Permissions>, pages: seq<nat>, from: nat, stop: nat)
    requires IsRun(pages, from, stop) && forall page :: pages[from] <= page < pages[from] + (stop - from) ==> page !in permissions
    ensures forall k :: from <= k < stop ==> pages[k] !in permissions
  {}

  /** There is room for an image: none of its pages is mapped, and physical pages are left for all. */
  ghost predicate Room(m: Mapped, extents: seq<Extent>) {
    |CoveredSet(extents)| <= m.available && forall page: nat :: Covered(extents, page) ==> page !in m.permissions
  }

  /** What a mapping that ran out of room leaves: some covered pages mapped read-write, everything mapped before as it was. */
  ghost predicate PartlyMapped(before: Mapped, extents: seq<Extent>, after: Mapped) {
    && (forall a: nat :: !Covered(extents, a / PAGE) ==> after.Byte(a) == before.Byte(a))
    && (forall a: nat :: a / PAGE in before.permissions ==> after.Byte(a) == before.Byte(a))
    && (forall page: nat :: page in before.permissions ==> page in after.permissions && after.permissions[page] == before.permissions[page])
    && (forall page: nat :: page in after.permissions && page !in before.permissions ==>
          Covered(extents, page) && after.permissions[page] == READ_WRITE)
  }

  lemma SomePages(before: Mapped, s: Space, next: nat, extents: seq<Extent>, pages: seq<nat>, index: nat, after: Mapped)
    requires index <= |pages| && forall page: nat :: page in pages <==> Covered(extents, page)
    requires forall k :: 0 <= k < index ==> pages[k] !in before.permissions
    requires after.permissions == WithPages(before.permissions, pages[..index], READ_WRITE) && Shows(before, s, next, pages[..index], after)
    ensures PartlyMapped(before, extents, after)
  {
    hide Covered, RamByte;
    assert forall page: nat :: page in pages[..index] ==> page in pages && page !in before.permissions;
  }

  lemma NoPages(before: Mapped, s: Space, next: nat, pages: seq<nat>)
    ensures WithPages(before.permissions, pages[..0], READ_WRITE) == before.permissions
    ensures Shows(before, s, next, pages[..0], before)
  {}

  /** The pages of a run were free just when they were free to begin with. */
  lemma RunFree(permissions: map<nat, Permissions>, pages: seq<nat>, from: nat, stop: nat, value: Permissions)
    requires Increasing(pages) && IsRun(pages, from, stop)
    ensures (forall page :: pages[from] <= page < pages[from] + (stop - from) ==> page !in WithPages(permissions, pages[..from], value)) <==>
            forall k :: from <= k < stop ==> pages[k] !in permissions
  {
    if forall k :: from <= k < stop ==> pages[k] !in permissions {
      forall page | pages[from] <= page < pages[from] + (stop - from) ensures page !in WithPages(permissions, pages[..from], value) {
        assert pages[from + (page - pages[from])] == page;
        assert page !in pages[..from];
      }
    }
    if k :| from <= k < stop && pages[k] in permissions {
      assert pages[k] in WithPages(permissions, pages[..from], value);
    }
  }

  /** The end of the maximal run that starts at an index. */
  method RunEnd(pages: seq<nat>, from: nat) returns (stop: nat)
    requires from < |pages|
    ensures IsRun(pages, from, stop)
    ensures stop < |pages| ==> pages[stop] != pages[stop - 1] + 1
  {
    stop := from + 1;
    while stop < |pages| && pages[stop] == pages[stop - 1] + 1
      invariant from < stop <= |pages|
      invariant forall k :: from <= k < stop ==> pages[k] == pages[from] + (k - from)
    {
      stop := stop + 1;
    }
  }

  // --- the bytes -----------------------------------------------------------------------------

  /** The bytes after copying extents in order. */
  function Overlay(stored: map<nat, u8>, extents: seq<Extent>): map<nat, u8> {
    if extents == [] then stored
    else Overlay(stored, extents[..|extents| - 1]) + DataMap(extents[|extents| - 1].start, extents[|extents| - 1].data)
  }

  /** Every page an extent's data touches can be written. */
  ghost predicate AllWritable(m: Mapped, extents: seq<Extent>) {
    forall e, page: nat :: e in extents && Touches(e.start, |e.data|, page) ==> m.Writable(page)
  }

  /** Copies each extent's data to its exact address. */
  method CopyData(space: SoftwareAddressSpace, extents: seq<Extent>) returns (r: Result<(), LoadError>)
    requires space.Valid() && forall e, page: nat :: e in extents && Touches(e.start, |e.data|, page) ==> page !in space.aliased
    modifies space
    ensures space.Valid() && space.aliased == old(space.aliased) && (old(space.Fresh()) ==> space.Fresh())
    ensures r.Ok? <==> AllWritable(old(space.mapped), extents)
    ensures r.Ok? ==> space.mapped == old(space.mapped).(stored := Overlay(old(space.mapped).stored, extents))
  {
    hide Represents, Window, FreeZeroed, DataMap, Touches, WindowByte;
    ghost var before := space.mapped;
    for k := 0 to |extents|
      invariant space.Valid() && space.aliased == old(space.aliased) && (old(space.Fresh()) ==> space.Fresh())
      invariant space.mapped == before.(stored := Overlay(before.stored, extents[..k]))
      invariant AllWritable(before, extents[..k])
    {
      var e := extents[k];
      assert extents[..k + 1] == extents[..k] + [e] && extents[..k + 1][..k] == extents[..k];
      if e.data == [] {
        EmptyData(before, before.stored, extents, k);
        continue;
      }
      ghost var now := space.mapped;
      var written := space.Write(e.start, e.data);
      if written.Err? {
        ghost var page: nat :| Touches(e.start, |e.data|, page) && !now.Writable(page);
        assert e in extents && !before.Writable(page);
        return Err(Memory(written.error));
      }
    }
    assert extents[..|extents|] == extents;
    return Ok(());
  }

  lemma EmptyData(m: Mapped, stored: map<nat, u8>, extents: seq<Extent>, k: nat)
    requires k < |extents| && extents[k].data == [] && AllWritable(m, extents[..k])
    ensures Overlay(stored, extents[..k + 1]) == Overlay(stored, extents[..k]) && AllWritable(m, extents[..k + 1])
  {
    assert extents[..k + 1] == extents[..k] + [extents[k]] && extents[..k + 1][..k] == extents[..k];
    assert DataMap(extents[k].start, []) == map[];
  }

  /** Disjoint extents hold an address at most once. */
  lemma HeldOnce(extents: seq<Extent>, address: nat)
    requires Disjoint(extents) && AllFit(extents) && extents != [] && extents[|extents| - 1].Holds(address)
    ensures forall e :: e in extents[..|extents| - 1] ==> !e.Holds(address)
  {
    var front := extents[..|extents| - 1];
    forall k | 0 <= k < |front| ensures !front[k].Holds(address) {
      assert Apart(extents[k], extents[|extents| - 1]);
    }
  }

  /** Copying disjoint extents puts every byte of each in place and touches nothing else. */
  lemma {:induction false} OverlayAt(stored: map<nat, u8>, extents: seq<Extent>, address: nat)
    requires Disjoint(extents) && AllFit(extents)
    ensures forall e :: e in extents && e.Holds(address) ==>
              address in Overlay(stored, extents) && Overlay(stored, extents)[address] == e.data[address - e.start]
    ensures (forall e :: e in extents ==> !e.Holds(address)) ==>
              (address in Overlay(stored, extents) <==> address in stored)
              && (address in stored ==> Overlay(stored, extents)[address] == stored[address])
    decreases |extents|
  {
    if extents != [] {
      var front, last := extents[..|extents| - 1], extents[|extents| - 1];
      OverlayAt(stored, front, address);
      assert extents == front + [last];
      DataAt(last.start, last.data, address);
      if last.Holds(address) { HeldOnce(extents, address); }
      hide DataMap, Disjoint, AllFit;
      assert forall e :: e in extents <==> e in front || e == last;
    }
  }

  lemma DataAt(start: nat, data: seq<u8>, address: nat)
    ensures address in DataMap(start, data) <==> start <= address < start + |data|
    ensures start <= address < start + |data| ==> DataMap(start, data)[address] == data[address - start]
  {}

  // --- the permissions --------------------------------------------------------------------------

  /** The union of what the extents covering a page contribute. */
  function Merged(extents: seq<Extent>, page: nat): Permissions {
    Permissions(true,
                exists e :: e in extents && e.Covers(page) && e.WritesPage(page),
                exists e :: e in extents && e.Covers(page) && e.executable)
  }

  function Contribution(e: Extent, page: nat): Permissions { Permissions(true, e.WritesPage(page), e.executable) }

  function Union(a: Permissions, b: Permissions): Permissions {
    Permissions(a.read || b.read, a.write || b.write, a.execute || b.execute)
  }

  lemma MergedMore(extents: seq<Extent>, k: nat, page: nat)
    requires k < |extents|
    ensures Covered(extents[..k + 1], page) <==> Covered(extents[..k], page) || extents[k].Covers(page)
    ensures !extents[k].Covers(page) ==> Merged(extents[..k + 1], page) == Merged(extents[..k], page)
    ensures extents[k].Covers(page) ==>
              Merged(extents[..k + 1], page) == Union(Merged(extents[..k], page), Contribution(extents[k], page))
    ensures !Covered(extents[..k], page) ==> Merged(extents[..k], page) == Permissions(true, false, false)
  {
    var front, e := extents[..k], extents[k];
    assert extents[..k + 1] == front + [e];
    assert e in extents[..k + 1];
  }

  /** Each covered page's permissions, merged extent by extent. */
  method MergePermissions(extents: seq<Extent>) returns (merged: map<nat, Permissions>)
    ensures forall page: nat :: page in merged <==> Covered(extents, page)
    ensures forall page :: page in merged ==> merged[page] == Merged(extents, page)
  {
    hide Covered, Merged;
    merged := map[];
    NothingCovered();
    assert extents[..0] == [];
    for k := 0 to |extents|
      invariant forall page: nat :: page in merged <==> Covered(extents[..k], page)
      invariant forall page :: page in merged ==> merged[page] == Merged(extents[..k], page)
    {
      var e := extents[k];
      ghost var before := merged;
      for page := e.FirstPage() to e.LastPage() + 1
        invariant forall p: nat :: p in merged <==> p in before || (e.Covers(p) && p < page)
        invariant forall p :: p in merged && e.Covers(p) && p < page ==> merged[p] == Merged(extents[..k + 1], p)
        invariant forall p :: p in merged && !(e.Covers(p) && p < page) ==> p in before && merged[p] == before[p]
      {
        MergedMore(extents, k, page);
        var entry := if page in merged then merged[page] else Permissions(false, false, false);
        merged := merged[page := Union(entry, Contribution(e, page))];
      }
      forall page: nat ensures page in merged <==> Covered(extents[..k + 1], page) { MergedMore(extents, k, page); }
      forall page | page in merged ensures merged[page] == Merged(extents[..k + 1], page) { MergedMore(extents, k, page); }
    }
    assert extents[..|extents|] == extents;
  }

  lemma NothingCovered()
    ensures forall page: nat :: !Covered([], page)
  {}

  /** Gives the covered pages their permissions, one call for each run that shares them. */
  method ApplyMergedPermissions(space: SoftwareAddressSpace, extents: seq<Extent>) returns (r: Result<(), LoadError>)
    requires space.Valid() && AllFit(extents)
    modifies space
    ensures space.Valid() && space.aliased == old(space.aliased) && (old(space.Fresh()) ==> space.Fresh())
    ensures r.Ok? <==> forall page: nat :: Covered(extents, page) ==> page in old(space.mapped).permissions
    ensures r.Ok? ==> space.mapped == old(space.mapped).(permissions := space.mapped.permissions)
    ensures r.Ok? ==> forall page: nat :: page in space.mapped.permissions <==> page in old(space.mapped).permissions
    ensures r.Ok? ==> forall page :: page in space.mapped.permissions ==>
              space.mapped.permissions[page] ==
              if Covered(extents, page) then Merged(extents, page) else old(space.mapped).permissions[page]
  {
    hide Represents, Window, FreeZeroed, Covered, Merged, Protected, WithRun, IsRun;
    var merged := MergePermissions(extents);
    var pages := CoveredPages(extents);
    ghost var before := space.mapped;
    var index := 0;
    NoneProtected(before.permissions, pages, merged);
    while index < |pages|
      invariant 0 <= index <= |pages| && space.Valid() && space.aliased == old(space.aliased) && (old(space.Fresh()) ==> space.Fresh())
      invariant space.mapped == before.(permissions := space.mapped.permissions)
      invariant Protected(before.permissions, space.mapped.permissions, pages, merged, index)
    {
      var stop := EqualRunEnd(pages, merged, index);
      RunInGuest(extents, pages, index, stop);
      ghost var now := space.mapped.permissions;
      var done := space.Protect(pages[index], stop - index, merged[pages[index]]);
      if done.Err? {
        RunMissing(before.permissions, now, pages, merged, index, stop);
        return Err(Memory(done.error));
      }
      RunDone(before.permissions, now, pages, merged, index, stop);
      index := stop;
    }
    AllProtected(before.permissions, space.mapped.permissions, pages, merged);
    return Ok(());
  }

  /** The first pages listed were mapped and have their merged permissions; the rest are as before. */
  ghost predicate Protected(before: map<nat, Permissions>, now: map<nat, Permissions>, pages: seq<nat>, merged: map<nat, Permissions>, index: nat) {
    && index <= |pages|
    && (forall page: nat :: page in now <==> page in before)
    && (forall page: nat :: page in pages[..index] ==> page in before && page in merged && now[page] == merged[page])
    && (forall page: nat :: page in before && page !in pages[..index] ==> now[page] == before[page])
  }

  lemma NoneProtected(before: map<nat, Permissions>, pages: seq<nat>, merged: map<nat, Permissions>)
    ensures Protected(before, before, pages, merged, 0)
  {}

  lemma AllProtected(before: map<nat, Permissions>, now: map<nat, Permissions>, pages: seq<nat>, merged: map<nat, Permissions>)
    requires Protected(before, now, pages, merged, |pages|)
    ensures forall page: nat :: page in now <==> page in before
    ensures forall page: nat :: page in pages ==> page in before && page in merged && now[page] == merged[page]
    ensures forall page: nat :: page in before && page !in pages ==> now[page] == before[page]
  {
    assert pages[..|pages|] == pages;
  }

  /** The end of the maximal run of consecutive pages with one permission. */
  method EqualRunEnd(pages: seq<nat>, merged: map<nat, Permissions>, from: nat) returns (stop: nat)
    requires from < |pages| && forall page :: page in pages ==> page in merged
    ensures IsRun(pages, from, stop)
    ensures forall k :: from <= k < stop ==> merged[pages[k]] == merged[pages[from]]
  {
    stop := from + 1;
    while stop < |pages| && pages[stop] == pages[stop - 1] + 1 && merged[pages[stop]] == merged[pages[from]]
      invariant from < stop <= |pages|
      invariant forall k :: from <= k < stop ==> pages[k] == pages[from] + (k - from) && merged[pages[k]] == merged[pages[from]]
    {
      stop := stop + 1;
    }
  }

  lemma RunMissing(before: map<nat, Permissions>, now: map<nat, Permissions>, pages: seq<nat>, merged: map<nat, Permissions>, from: nat, stop: nat)
    requires IsRun(pages, from, stop) && Protected(before, now, pages, merged, from)
    requires !forall page :: pages[from] <= page < pages[from] + (stop - from) ==> page in now
    ensures exists page :: page in pages && page !in before
  {
    var page :| pages[from] <= page < pages[from] + (stop - from) && page !in now;
    assert pages[from + (page - pages[from])] == page;
  }

  /** Protecting one run extends the pages protected so far. */
  lemma RunDone(before: map<nat, Permissions>, now: map<nat, Permissions>, pages: seq<nat>, merged: map<nat, Permissions>, from: nat, stop: nat)
    requires IsRun(pages, from, stop) && Protected(before, now, pages, merged, from)
    requires pages[from] in merged && forall k :: from <= k < stop ==> pages[k] in merged && merged[pages[k]] == merged[pages[from]]
    requires forall page :: pages[from] <= page < pages[from] + (stop - from) ==> page in now
    ensures Protected(before, WithRun(now, pages[from], stop - from, merged[pages[from]]), pages, merged, stop)
  {
    hide WithRun;
    var after := WithRun(now, pages[from], stop - from, merged[pages[from]]);
    forall page: nat ensures ProtectedAt(before, after, pages, merged, stop, page) {
      RunDoneAt(before, now, pages, merged, from, stop, page);
    }
    ProtectedEverywhere(before, after, pages, merged, stop);
  }

  ghost predicate ProtectedAt(before: map<nat, Permissions>, now: map<nat, Permissions>, pages: seq<nat>, merged: map<nat, Permissions>, index: nat, page: nat) {
    && index <= |pages|
    && (page in now <==> page in before)
    && (page in pages[..index] ==> page in before && page in merged && now[page] == merged[page])
    && (page in before && page !in pages[..index] ==> now[page] == before[page])
  }

  lemma ProtectedEverywhere(before: map<nat, Permissions>, now: map<nat, Permissions>, pages: seq<nat>, merged: map<nat, Permissions>, index: nat)
    requires forall page: nat :: ProtectedAt(before, now, pages, merged, index, page)
    ensures Protected(before, now, pages, merged, index)
  {
    assert ProtectedAt(before, now, pages, merged, index, 0);
    forall page: nat
      ensures page in now <==> page in before
      ensures page in pages[..index] ==> page in before && page in merged && now[page] == merged[page]
      ensures page in before && page !in pages[..index] ==> now[page] == before[page]
    {
      assert ProtectedAt(before, now, pages, merged, index, page);
    }
  }

  lemma RunDoneAt(before: map<nat, Permissions>, now: map<nat, Permissions>, pages: seq<nat>, merged: map<nat, Permissions>, from: nat, stop: nat, page: nat)
    requires IsRun(pages, from, stop) && Protected(before, now, pages, merged, from)
    requires pages[from] in merged && forall k :: from <= k < stop ==> pages[k] in merged && merged[pages[k]] == merged[pages[from]]
    requires forall p :: pages[from] <= p < pages[from] + (stop - from) ==> p in now
    ensures ProtectedAt(before, WithRun(now, pages[from], stop - from, merged[pages[from]]), pages, merged, stop, page)
  {
    var first, count, value, listed := pages[from], stop - from, merged[pages[from]], pages[from..stop];
    assert pages[..stop] == pages[..from] + listed;
    assert page in pages[..stop] <==> page in pages[..from] || page in listed;
    assert ProtectedAt(before, now, pages, merged, from, page);
    assert InRun(first, count, page) ==> page in now;
    RunPages(pages, from, stop, page);
    if page in listed { RunValue(pages, merged, from, stop, page); }
    hide IsRun, Protected, WithRun, InRun;
    RunAt(now, first, count, value, page);
  }

  lemma RunValue(pages: seq<nat>, merged: map<nat, Permissions>, from: nat, stop: nat, page: nat)
    requires IsRun(pages, from, stop) && page in pages[from..stop]
    requires pages[from] in merged && forall k :: from <= k < stop ==> pages[k] in merged && merged[pages[k]] == merged[pages[from]]
    ensures page in merged && merged[page] == merged[pages[from]]
    ensures pages[from] <= page < pages[from] + (stop - from)
  {
    var j :| 0 <= j < stop - from && pages[from..stop][j] == page;
    assert pages[from + j] == page;
  }
}
