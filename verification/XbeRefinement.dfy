/**
 The whole load (emulator.rs, `map_xbe`) against what an image means: exactly
 the covered pages mapped, each byte where its extent says and fresh RAM around it,
 permissions united, nothing else touched, whatever order the sections come in.
 */
module XbeRefinement {
  import opened Words
  import opened Sorting
  import opened GuestMemory
  import opened SpaceView
  import opened AddressSpace
  import opened XbeLoader
  import opened XbeMapping
  import opened XbeImage

  /** How many covered pages lie below a page. */
  ghost function Rank(extents: seq<Extent>, page: nat): nat { |CoveredBelow(extents, page)| }

  ghost function CoveredBelow(extents: seq<Extent>, page: nat): set<nat> { set p | 0 <= p < page && Covered(extents, p) }

  /** The physical byte a covered address gets: pages are handed out in ascending order from the cursor. */
  ghost function Behind(s: Space, next: nat, extents: seq<Extent>, a: nat): u8 { RamByte(s, next + Rank(extents, a / PAGE), a) }

  /**
   What a loaded image leaves, page by page and byte by byte. Around the data the
   pages show the RAM they were given.
   */
  ghost predicate Loaded(before: Mapped, s: Space, next: nat, extents: seq<Extent>, after: Mapped) {
    && PagesLoaded(before, extents, after) && DataLoaded(extents, after)
    && (forall a: nat :: (forall e :: e in extents ==> !e.Holds(a)) ==>
          after.Byte(a) == if Covered(extents, a / PAGE) then Behind(s, next, extents, a) else before.Byte(a))
  }

  ghost predicate DataLoaded(extents: seq<Extent>, after: Mapped) {
    forall e, a: nat :: e in extents && e.Holds(a) ==> after.Byte(a) == e.data[a - e.start]
  }

  /** Loaded into RAM that is zero past the cursor, an image has zeros around its data. */
  lemma ZeroAround(before: Mapped, s: Space, next: nat, extents: seq<Extent>, after: Mapped, a: nat)
    requires Loaded(before, s, next, extents, after) && FreeZeroed(s, next)
    requires Covered(extents, a / PAGE) && forall e :: e in extents ==> !e.Holds(a)
    ensures after.Byte(a) == 0
  {
    hide Covered, PagesLoaded, Rank;
    var rank := Rank(extents, a / PAGE);
    assert (next + rank) * PAGE + a % PAGE >= next * PAGE;
  }

  /** The k-th covered page has k below it. */
  lemma RankIs(extents: seq<Extent>, pages: seq<nat>, k: nat)
    requires Increasing(pages) && (forall page: nat :: page in pages <==> Covered(extents, page)) && k < |pages|
    ensures Rank(extents, pages[k]) == k
  {
    hide Covered;
    var below := CoveredBelow(extents, pages[k]);
    forall p: nat ensures p in below <==> p in pages[..k] {
      if p in below {
        assert p in pages;
        var j :| 0 <= j < |pages| && pages[j] == p;
        assert j < k;
        assert pages[..k][j] == p;
      }
      if p in pages[..k] {
        var j :| 0 <= j < k && pages[..k][j] == p;
        assert pages[j] == p && p in pages;
      }
    }
    DistinctCount(pages[..k], below);
  }

  ghost predicate PagesLoaded(before: Mapped, extents: seq<Extent>, after: Mapped) {
    && after.available + |CoveredSet(extents)| == before.available
    && (forall page: nat :: page in after.permissions <==> page in before.permissions || Covered(extents, page))
    && (forall page: nat :: page in after.permissions ==>
          after.permissions[page] == if Covered(extents, page) then Merged(extents, page) else before.permissions[page])
  }

  ghost function UsedSet(image: Image): set<nat> { set page | 0 <= page < 0x10_0000 && Used(image, page) }

  /** Exactly when an image loads: well formed, no address taken up twice, its pages free and enough physical pages left. */
  ghost predicate Loadable(before: Mapped, image: Image, file: seq<u8>) {
    && WellFormed(image, file) && Unshared(image)
    && |UsedSet(image)| <= before.available && forall page: nat :: Used(image, page) ==> page !in before.permissions
  }

  lemma LoadableIs(before: Mapped, image: Image, file: seq<u8>)
    ensures Loadable(before, image, file) <==>
              Extents(image, file).Ok? && Disjoint(Extents(image, file).value) && Room(before, Extents(image, file).value)
  {
    hide Extents, Disjoint, WellFormed, Unshared, Lists, Covered, Used;
    ExtentsMean(image, file);
    if Extents(image, file).Ok? {
      var extents := Extents(image, file).value;
      UsedIsCovered(image, file, extents);
    }
  }

  lemma UsedIsCovered(image: Image, file: seq<u8>, extents: seq<Extent>)
    requires Lists(image, file, |image.sections|, extents)
    ensures UsedSet(image) == CoveredSet(extents) && forall page: nat :: Covered(extents, page) <==> Used(image, page)
  {
    hide Lists, Covered, Used;
    forall page: nat ensures Covered(extents, page) <==> Used(image, page) { CoveredMeans(image, file, extents, page); }
  }

  /** A section's file bytes reach an address. */
  predicate Filled(s: Section, a: nat) { s.virtualSize > 0 && s.virtualAddress <= a < s.virtualAddress + s.rawSize }

  /** The header's bytes, and each section's, are at their addresses. */
  ghost predicate BytesPlaced(image: Image, file: seq<u8>, after: Mapped)
    requires WellFormed(image, file)
  {
    && (forall k :: 0 <= k < image.sizeOfHeaders ==> after.Byte(image.base + k) == file[k])
    && (forall i, a: nat :: 0 <= i < |image.sections| && Filled(image.sections[i], a) ==>
          after.Byte(a) == file[image.sections[i].rawAddress + (a - image.sections[i].virtualAddress)])
  }

  /** Exactly the used pages became mapped, with what the sections on them allow; the others are as they were. */
  ghost predicate PagesPlaced(before: Mapped, image: Image, after: Mapped) {
    && after.available + |UsedSet(image)| == before.available
    && (forall page: nat :: page in after.permissions <==> page in before.permissions || Used(image, page))
    && (forall page: nat :: page in after.permissions ==>
          after.permissions[page] == if Used(image, page) then Allowed(image, page) else before.permissions[page])
    && (forall a: nat :: !Used(image, a / PAGE) ==> after.Byte(a) == before.Byte(a))
  }

  /** The guest reads every section's file bytes, and fetches those of executable ones. */
  ghost predicate SectionsReadable(s: Space, image: Image, file: seq<u8>)
    requires WellFormed(image, file)
  {
    forall i :: 0 <= i < |image.sections| && image.sections[i].virtualSize > 0 && image.sections[i].rawSize > 0 ==>
      var section := image.sections[i];
      var bytes := file[section.rawAddress..section.rawAddress + section.rawSize];
      && s.Load(section.virtualAddress, section.rawSize, ReadAccess) == Ok(bytes)
      && (section.executable ==> s.Load(section.virtualAddress, section.rawSize, ExecuteAccess) == Ok(bytes))
  }

  lemma BytesArePlaced(image: Image, file: seq<u8>, extents: seq<Extent>, after: Mapped)
    requires WellFormed(image, file) && Lists(image, file, |image.sections|, extents) && DataLoaded(extents, after)
    ensures BytesPlaced(image, file, after)
  {
    hide Lists, DataLoaded;
    var n := |image.sections|;
    if image.sizeOfHeaders > 0 {
      var e := ExtentFor(image, file, extents, HeaderPart);
      forall k | 0 <= k < image.sizeOfHeaders ensures after.Byte(image.base + k) == file[k] { DataByte(extents, after, e, image.base + k); }
    }
    forall i, a: nat | 0 <= i < n && Filled(image.sections[i], a)
      ensures after.Byte(a) == file[image.sections[i].rawAddress + (a - image.sections[i].virtualAddress)]
    {
      var e := ExtentFor(image, file, extents, SectionPart(i));
      DataByte(extents, after, e, a);
    }
  }

  lemma DataByte(extents: seq<Extent>, after: Mapped, e: Extent, a: nat)
    requires DataLoaded(extents, after) && e in extents && e.Holds(a)
    ensures after.Byte(a) == e.data[a - e.start]
  {}

  lemma PagesArePlaced(before: Mapped, s: Space, next: nat, image: Image, file: seq<u8>, extents: seq<Extent>, after: Mapped)
    requires Lists(image, file, |image.sections|, extents) && AllFit(extents) && Loaded(before, s, next, extents, after)
    ensures PagesPlaced(before, image, after)
  {
    hide Lists, Covered, Used, Merged, Allowed, DataLoaded, Behind;
    UsedIsCovered(image, file, extents);
    forall page: nat ensures Merged(extents, page) == Allowed(image, page) { MergedMeans(image, file, extents, page); }
    forall a: nat | !Used(image, a / PAGE) ensures after.Byte(a) == before.Byte(a) {
      forall e | e in extents && e.Holds(a) ensures Covered(extents, a / PAGE) { HeldCovered(extents, e, a); }
    }
  }

  lemma HeldCovered(extents: seq<Extent>, e: Extent, a: nat)
    requires e in extents && AllFit(extents) && e.Holds(a)
    ensures Covered(extents, a / PAGE)
  {
    assert e.Fits();
    assert e.Covers(a / PAGE);
  }

  lemma SectionsAreReadable(s: Space, image: Image, file: seq<u8>, extents: seq<Extent>)
    requires WellFormed(image, file) && Lists(image, file, |image.sections|, extents) && Readable(s, extents)
    ensures SectionsReadable(s, image, file)
  {
    hide Lists;
    forall i | 0 <= i < |image.sections| && image.sections[i].virtualSize > 0 && image.sections[i].rawSize > 0
      ensures var section := image.sections[i];
              var bytes := file[section.rawAddress..section.rawAddress + section.rawSize];
              && s.Load(section.virtualAddress, section.rawSize, ReadAccess) == Ok(bytes)
              && (section.executable ==> s.Load(section.virtualAddress, section.rawSize, ExecuteAccess) == Ok(bytes))
    {
      var e := ExtentFor(image, file, extents, SectionPart(i));
      assert e.data != [];
    }
  }

  /** An extent's data stays on the pages the extent covers. */
  lemma DataCovered(extents: seq<Extent>, m: Mapped)
    requires AllFit(extents) && forall page: nat :: Covered(extents, page) ==> m.Writable(page)
    ensures AllWritable(m, extents)
  {
    forall e, page: nat | e in extents && Touches(e.start, |e.data|, page) ensures m.Writable(page) {
      assert e.Fits();
      assert e.Covers(page);
      assert Covered(extents, page);
    }
  }

  /** Covered pages were free, so none of them is a page of the physical window. */
  lemma DataUnaliased(before: Mapped, extents: seq<Extent>, aliased: set<nat>)
    requires AllFit(extents) && Room(before, extents) && aliased <= before.permissions.Keys
    ensures forall e, page: nat :: e in extents && Touches(e.start, |e.data|, page) ==> page !in aliased
  {
    forall e, page: nat | e in extents && Touches(e.start, |e.data|, page) ensures page !in aliased {
      assert e.Fits();
      assert e.Covers(page);
      assert Covered(extents, page);
    }
  }

  /** The guest reads every extent's data where it belongs, and can fetch it where the extent is executable. */
  ghost predicate Readable(s: Space, extents: seq<Extent>) {
    forall e :: e in extents && e.data != [] ==>
      s.Load(e.start, |e.data|, ReadAccess) == Ok(e.data) && (e.executable ==> s.Load(e.start, |e.data|, ExecuteAccess) == Ok(e.data))
  }

  lemma LoadedReadable(before: Mapped, extents: seq<Extent>, after: Mapped, s: Space, next: nat, aliased: set<nat>)
    requires AllFit(extents) && Room(before, extents) && aliased <= before.permissions.Keys
    requires PagesLoaded(before, extents, after) && DataLoaded(extents, after) && Represents(after, s, next, aliased)
    ensures Readable(s, extents)
  {
    hide Represents, Room, PagesLoaded, DataLoaded, Merged, AllFit, Touches;
    DataUnaliased(before, extents, aliased);
    forall e | e in extents && e.data != []
      ensures s.Load(e.start, |e.data|, ReadAccess) == Ok(e.data) && (e.executable ==> s.Load(e.start, |e.data|, ExecuteAccess) == Ok(e.data))
    {
      ExtentReads(before, extents, after, s, next, aliased, e, ReadAccess);
      if e.executable { ExtentReads(before, extents, after, s, next, aliased, e, ExecuteAccess); }
    }
  }

  lemma ExtentReads(before: Mapped, extents: seq<Extent>, after: Mapped, s: Space, next: nat, aliased: set<nat>, e: Extent, access: Access)
    requires AllFit(extents) && PagesLoaded(before, extents, after) && DataLoaded(extents, after) && Represents(after, s, next, aliased)
    requires e in extents && e.data != [] && (access.ReadAccess? || (access.ExecuteAccess? && e.executable))
    requires forall page: nat :: Touches(e.start, |e.data|, page) ==> page !in aliased
    ensures s.Load(e.start, |e.data|, access) == Ok(e.data)
  {
    hide Represents, PagesLoaded, DataLoaded, Touches, AllFit;
    var n := |e.data|;
    ExtentBytes(extents, after, e);
    forall page: nat | Touches(e.start, n, page) ensures after.Allows(page, access) {
      ExtentAllows(before, extents, after, e, access, page);
    }
    LoadShows(after, s, next, aliased, e.start, n, access);
    assert s.Load(e.start, n, access).value == e.data;
  }

  lemma ExtentAllows(before: Mapped, extents: seq<Extent>, after: Mapped, e: Extent, access: Access, page: nat)
    requires AllFit(extents) && PagesLoaded(before, extents, after) && e in extents && Touches(e.start, |e.data|, page)
    requires access.ReadAccess? || (access.ExecuteAccess? && e.executable)
    ensures after.Allows(page, access)
  {
    assert e.Fits();
    assert e.Covers(page);
    assert Covered(extents, page);
  }

  lemma ExtentBytes(extents: seq<Extent>, after: Mapped, e: Extent)
    requires AllFit(extents) && DataLoaded(extents, after) && e in extents
    ensures e.start + |e.data| <= TWO32
    ensures forall i :: 0 <= i < |e.data| ==> e.data[i] == after.Byte(e.start + i)
  {
    assert e.Fits();
    forall i | 0 <= i < |e.data| ensures e.data[i] == after.Byte(e.start + i) {
      assert e.Holds(e.start + i);
    }
  }

  /**
   Loads an image, or reports why not. A load that fails leaves everything
   mapped before as it was: unchanged if the extents were refused, else with
   some covered pages mapped.
   */
  method MapXbe(space: SoftwareAddressSpace, image: Image, file: seq<u8>) returns (r: Result<(), LoadError>)
    requires space.Valid()
    modifies space
    ensures space.Valid() && space.aliased == old(space.aliased) && (old(space.Fresh()) ==> space.Fresh())
    ensures r.Ok? <==> Loadable(old(space.mapped), image, file)
    ensures r.Ok? ==> BytesPlaced(image, file, space.mapped) && PagesPlaced(old(space.mapped), image, space.mapped)
    ensures r.Ok? ==> SectionsReadable(space.space, image, file)
    ensures !WellFormed(image, file) ==> r.Err? && Blamed(image, file, r.error)
    ensures !(WellFormed(image, file) && Unshared(image)) ==> space.mapped == old(space.mapped)
    ensures r.Ok? ==> Extents(image, file).Ok? && Loaded(old(space.mapped), old(space.space), old(space.next), Extents(image, file).value, space.mapped)
    ensures r.Ok? ==> Extents(image, file).Ok? && Readable(space.space, Extents(image, file).value)
    ensures r.Err? ==>
              if Extents(image, file).Ok? && Disjoint(Extents(image, file).value)
              then PartlyMapped(old(space.mapped), Extents(image, file).value, space.mapped)
              else space.mapped == old(space.mapped)
  {
    hide Extents, Disjoint, Room, AllFit, Covered, Merged, WithPages, Overlay, Loaded, AllWritable, Represents, Window, FreeZeroed,
         Readable, PartlyMapped, Touches, Shows, PagesLoaded, DataLoaded, WellFormed, Unshared, Loadable, Lists, Blamed,
         BytesPlaced, PagesPlaced, SectionsReadable;
    ExtentsMean(image, file);
    LoadableIs(space.mapped, image, file);
    if Extents(image, file).Err? { ErrorsMean(image, file, Extents(image, file).error); }
    ghost var before, aliased, s, next := space.mapped, space.aliased, space.space, space.next;
    AliasesMapped(space.mapped, space.space, space.next, space.aliased);
    var extents :- ImageExtents(image, file);
    var pages :- MapCoveredPages(space, extents);
    ghost var mapped := space.mapped;
    MappedWritable(before, extents, pages, mapped);
    DataCovered(extents, mapped);
    DataUnaliased(before, extents, aliased);
    var copied := CopyData(space, extents);
    var applied := ApplyMergedPermissions(space, extents);
    // Neither step can fail: every covered page is mapped, and writable until the last step.
    assert copied.Ok? && applied.Ok?;
    LoadedImage(before, s, next, extents, pages, mapped, space.mapped);
    LoadedReadable(before, extents, space.mapped, space.space, space.next, aliased);
    BytesArePlaced(image, file, extents, space.mapped);
    PagesArePlaced(before, s, next, image, file, extents, space.mapped);
    SectionsAreReadable(space.space, image, file, extents);
    return Ok(());
  }

  lemma AliasesMapped(m: Mapped, s: Space, next: nat, aliased: set<nat>)
    requires Represents(m, s, next, aliased)
    ensures aliased <= m.permissions.Keys && m.Valid()
  {}

  /** The covered pages are mapped, and writable until the final protection. */
  lemma MappedWritable(before: Mapped, extents: seq<Extent>, pages: seq<nat>, m: Mapped)
    requires forall page: nat :: page in pages <==> Covered(extents, page)
    requires m.permissions == WithPages(before.permissions, pages, READ_WRITE)
    ensures forall page: nat :: Covered(extents, page) ==> page in m.permissions && m.Writable(page)
  {
    hide Covered;
    forall page: nat | Covered(extents, page) ensures page in m.permissions && m.Writable(page) {
      PagesSet(before.permissions, pages, READ_WRITE, page);
    }
  }

  /** The three stages together. */
  lemma LoadedImage(before: Mapped, s: Space, next: nat, extents: seq<Extent>, pages: seq<nat>, mapped: Mapped, after: Mapped)
    requires AllFit(extents) && Disjoint(extents) && Room(before, extents)
    requires Increasing(pages) && forall page: nat :: page in pages <==> Covered(extents, page)
    requires |pages| <= before.available && after.available == before.available - |pages|
    requires Shows(before, s, next, pages, mapped) && after.stored == Overlay(mapped.stored, extents)
    requires forall page: nat :: page in after.permissions <==> page in WithPages(before.permissions, pages, READ_WRITE)
    requires forall page :: page in after.permissions ==>
               after.permissions[page] == if Covered(extents, page) then Merged(extents, page)
                                          else WithPages(before.permissions, pages, READ_WRITE)[page]
    ensures Loaded(before, s, next, extents, after) && PagesLoaded(before, extents, after) && DataLoaded(extents, after)
  {
    PagesAreLoaded(before, extents, pages, after);
    hide PagesLoaded, Overlay, Disjoint, Covered, AllFit, Shows, Room, Behind;
    forall e, a: nat | e in extents && e.Holds(a) ensures after.Byte(a) == e.data[a - e.start] {
      OverlayAt(mapped.stored, extents, a);
    }
    forall a: nat | forall e :: e in extents ==> !e.Holds(a)
      ensures after.Byte(a) == if Covered(extents, a / PAGE) then Behind(s, next, extents, a) else before.Byte(a)
    {
      OverlayAt(mapped.stored, extents, a);
      ShownByte(before, s, next, extents, pages, mapped, a);
    }
  }

  lemma ShownByte(before: Mapped, s: Space, next: nat, extents: seq<Extent>, pages: seq<nat>, mapped: Mapped, a: nat)
    requires Increasing(pages) && (forall page: nat :: page in pages <==> Covered(extents, page)) && Shows(before, s, next, pages, mapped)
    ensures mapped.Byte(a) == if Covered(extents, a / PAGE) then Behind(s, next, extents, a) else before.Byte(a)
  {
    hide Covered, RamByte, Rank;
    if Covered(extents, a / PAGE) {
      assert a / PAGE in pages;
      var k :| 0 <= k < |pages| && pages[k] == a / PAGE;
      RankIs(extents, pages, k);
    }
  }

  lemma PagesAreLoaded(before: Mapped, extents: seq<Extent>, pages: seq<nat>, after: Mapped)
    requires AllFit(extents) && Increasing(pages) && forall page: nat :: page in pages <==> Covered(extents, page)
    requires |pages| <= before.available && after.available == before.available - |pages|
    requires forall page: nat :: page in after.permissions <==> page in WithPages(before.permissions, pages, READ_WRITE)
    requires forall page :: page in after.permissions ==>
               after.permissions[page] == if Covered(extents, page) then Merged(extents, page)
                                          else WithPages(before.permissions, pages, READ_WRITE)[page]
    ensures PagesLoaded(before, extents, after)
  {
    hide Covered, Merged, WithPages, AllFit, CoveredSet;
    CoveredCount(extents, pages);
    forall page: nat
      ensures page in after.permissions <==> page in before.permissions || Covered(extents, page)
      ensures page in after.permissions ==>
                after.permissions[page] == if Covered(extents, page) then Merged(extents, page) else before.permissions[page]
    {
      PagesSet(before.permissions, pages, READ_WRITE, page);
    }
  }

  // --- order does not matter -----------------------------------------------------------------

  /** The same pages, permissions, bytes and room left. */
  ghost predicate SameMapping(a: Mapped, b: Mapped) {
    a.permissions == b.permissions && a.available == b.available && forall address: nat :: a.Byte(address) == b.Byte(address)
  }

  ghost predicate SameExtents(a: seq<Extent>, b: seq<Extent>) { forall e :: e in a <==> e in b }

  lemma SameCoverage(a: seq<Extent>, b: seq<Extent>)
    requires SameExtents(a, b)
    ensures forall page: nat :: Covered(a, page) <==> Covered(b, page)
    ensures forall page: nat :: Merged(a, page) == Merged(b, page)
    ensures CoveredSet(a) == CoveredSet(b)
    ensures forall page: nat :: Rank(a, page) == Rank(b, page)
  {
    assert forall page: nat :: Covered(a, page) <==> Covered(b, page);
    forall page: nat ensures Rank(a, page) == Rank(b, page) {
      assert CoveredBelow(a, page) == CoveredBelow(b, page);
    }
  }

  /** Loading the same extents in any order leaves the same mapping. */
  lemma LoadedOnce(before: Mapped, s: Space, next: nat, a: seq<Extent>, b: seq<Extent>, after: Mapped, after': Mapped)
    requires SameExtents(a, b) && Loaded(before, s, next, a, after) && Loaded(before, s, next, b, after')
    ensures SameMapping(after, after')
  {
    hide Loaded, Covered, Merged, CoveredSet, Rank, SameExtents;
    SamePermissions(before, s, next, a, b, after, after');
    forall address: nat ensures after.Byte(address) == after'.Byte(address) {
      SameByte(before, s, next, a, b, after, after', address);
    }
  }

  lemma SamePermissions(before: Mapped, s: Space, next: nat, a: seq<Extent>, b: seq<Extent>, after: Mapped, after': Mapped)
    requires SameExtents(a, b) && Loaded(before, s, next, a, after) && Loaded(before, s, next, b, after')
    ensures after.permissions == after'.permissions && after.available == after'.available
  {
    hide Covered, Merged, CoveredSet, Rank, DataLoaded, Behind;
    SameCoverage(a, b);
  }

  lemma SameByte(before: Mapped, s: Space, next: nat, a: seq<Extent>, b: seq<Extent>, after: Mapped, after': Mapped, address: nat)
    requires SameExtents(a, b) && Loaded(before, s, next, a, after) && Loaded(before, s, next, b, after')
    ensures after.Byte(address) == after'.Byte(address)
  {
    hide Covered, Merged, CoveredSet, Rank, PagesLoaded, RamByte;
    SameCoverage(a, b);
    if e :| e in a && e.Holds(address) {
      assert e in b;
    } else {
      assert forall e :: e in b ==> !e.Holds(address);
    }
  }

  function Contribution(image: Image, file: seq<u8>, s: Section): seq<Extent> {
    match SectionExtent(image, file, s) case Ok(extents) => extents case Err(_) => []
  }

  /** Sections load when each does, and give their contributions in order. */
  lemma {:induction false} SectionsEach(image: Image, file: seq<u8>, sections: seq<Section>)
    ensures SectionExtents(image, file, sections).Ok? <==> forall s :: s in sections ==> SectionExtent(image, file, s).Ok?
    ensures SectionExtents(image, file, sections).Ok? ==>
              SectionExtents(image, file, sections).value == FlatMap(s => Contribution(image, file, s), sections)
  {
    hide SectionExtent;
    if sections != [] {
      var front, last := sections[..|sections| - 1], sections[|sections| - 1];
      SectionsEach(image, file, front);
      assert sections == front + [last];
    }
  }

  /** Contributions of permuted sections are permuted. */
  lemma {:induction false} FlatMapPermutes<A, B>(f: A -> seq<B>, a: seq<A>, b: seq<A>)
    requires multiset(a) == multiset(b)
    ensures multiset(FlatMap(f, a)) == multiset(FlatMap(f, b))
    decreases |a|
  {
    hide FlatMap;
    if a == [] {
      assert |multiset(b)| == 0;
      assert b == [];
    } else {
      var x := a[0];
      assert x in multiset(a);
      var k :| 0 <= k < |b| && b[k] == x;
      var rest := b[..k] + b[k + 1..];
      RemovedOne(a, 0);
      RemovedOne(b, k);
      assert a[..0] + a[1..] == a[1..];
      Cancel(multiset(a[1..]), multiset(rest), multiset{x});
      FlatMapPermutes(f, a[1..], rest);
      FlatMapMiddle(f, a, 0);
      FlatMapMiddle(f, b, k);
    }
  }

  lemma RemovedOne<A>(s: seq<A>, k: nat)
    requires k < |s|
    ensures multiset(s) == multiset(s[..k] + s[k + 1..]) + multiset{s[k]}
  {
    assert s == s[..k] + [s[k]] + s[k + 1..];
  }

  lemma FlatMapMiddle<A, B>(f: A -> seq<B>, s: seq<A>, k: nat)
    requires k < |s|
    ensures multiset(FlatMap(f, s)) == multiset(FlatMap(f, s[..k] + s[k + 1..])) + multiset(f(s[k]))
  {
    hide FlatMap;
    var left, x, right := s[..k], s[k], s[k + 1..];
    assert s == left + [x] + right;
    FlatMapAppend(f, left, right);
    FlatMapAppend(f, left + [x], right);
    FlatMapAppend(f, left, [x]);
    FlatMapOne(f, x);
    Middle(FlatMap(f, left), f(x), FlatMap(f, right));
  }

  lemma FlatMapOne<A, B>(f: A -> seq<B>, x: A)
    ensures FlatMap(f, [x]) == f(x)
  {
    assert [x][..0] == [];
    assert [] + f(x) == f(x);
  }

  lemma Middle<B>(left: seq<B>, middle: seq<B>, right: seq<B>)
    ensures multiset(left + middle + right) == multiset(left + right) + multiset(middle)
  {}

  lemma Cancel<A>(a: multiset<A>, b: multiset<A>, c: multiset<A>)
    requires a + c == b + c
    ensures a == b
  {
    assert a + c - c == a && b + c - c == b;
  }

  /** Reordering an image's sections changes neither whether it loads nor what it leaves. */
  lemma SectionOrderIrrelevant(before: Mapped, s: Space, next: nat, image: Image, sections: seq<Section>, file: seq<u8>, after: Mapped, after': Mapped)
    requires multiset(sections) == multiset(image.sections)
    ensures Loadable(before, image, file) <==> Loadable(before, image.(sections := sections), file)
    ensures Loadable(before, image, file) ==> Extents(image, file).Ok? && Extents(image.(sections := sections), file).Ok?
    ensures (&& Loadable(before, image, file) && Loaded(before, s, next, Extents(image, file).value, after)
             && Loaded(before, s, next, Extents(image.(sections := sections), file).value, after')) ==>
              SameMapping(after, after')
  {
    hide Disjoint, Room, Loaded, SameMapping, Loadable;
    var other := image.(sections := sections);
    LoadableIs(before, image, file);
    LoadableIs(before, other, file);
    ExtentsPermute(image, sections, file);
    if Extents(image, file).Ok? {
      var a, b := Extents(image, file).value, Extents(other, file).value;
      SameMembers(a, b);
      RoomPermutes(before, a, b);
      if Disjoint(a) { DisjointPermutes(a, b); }
      if Disjoint(b) { DisjointPermutes(b, a); }
      if Loaded(before, s, next, a, after) && Loaded(before, s, next, b, after') { LoadedOnce(before, s, next, a, b, after, after'); }
    }
  }

  lemma SameMembers(a: seq<Extent>, b: seq<Extent>)
    requires multiset(a) == multiset(b)
    ensures SameExtents(a, b)
  {
    assert forall e :: e in a <==> e in multiset(a);
    assert forall e :: e in b <==> e in multiset(b);
  }

  lemma RoomPermutes(before: Mapped, a: seq<Extent>, b: seq<Extent>)
    requires SameExtents(a, b)
    ensures Room(before, a) <==> Room(before, b)
  {
    SameCoverage(a, b);
  }

  lemma ExtentsPermute(image: Image, sections: seq<Section>, file: seq<u8>)
    requires multiset(sections) == multiset(image.sections)
    ensures Extents(image, file).Ok? <==> Extents(image.(sections := sections), file).Ok?
    ensures Extents(image, file).Ok? ==>
              multiset(Extents(image, file).value) == multiset(Extents(image.(sections := sections), file).value)
  {
    hide SectionExtent, FlatMap;
    var other := image.(sections := sections);
    SectionsEach(image, file, image.sections);
    SectionsEach(other, file, sections);
    assert forall s :: s in sections <==> s in multiset(sections);
    assert forall s :: s in image.sections <==> s in multiset(image.sections);
    forall s: Section ensures SectionExtent(other, file, s) == SectionExtent(image, file, s) { SameWindow(image, sections, file, s); }
    FlatMapPermutes(s => Contribution(image, file, s), image.sections, sections);
    FlatMapSame(s => Contribution(image, file, s), s => Contribution(other, file, s), sections);
  }

  lemma SameWindow(image: Image, sections: seq<Section>, file: seq<u8>, s: Section)
    ensures SectionExtent(image.(sections := sections), file, s) == SectionExtent(image, file, s)
  {}

  lemma {:induction false} FlatMapSame<A(!new), B>(f: A -> seq<B>, g: A -> seq<B>, s: seq<A>)
    requires forall x: A :: f(x) == g(x)
    ensures FlatMap(f, s) == FlatMap(g, s)
  {
    if s != [] { FlatMapSame(f, g, s[..|s| - 1]); }
  }
}
