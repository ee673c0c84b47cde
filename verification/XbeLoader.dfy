/**
 The image loader (emulator.rs, `map_xbe`): header and sections become extents,
 overlapping bytes are refused, covered pages are mapped in runs, data is copied
 in, and every page ends with the union of its contributors' permissions.
 */
module XbeLoader {
  import opened Words
  import opened Sorting
  import opened GuestMemory
  import opened SpaceView
  import opened AddressSpace

  datatype Section = Section(
    index: u32, writable: bool, executable: bool, headPageReadOnly: bool, tailPageReadOnly: bool,
    virtualAddress: u32, virtualSize: u32, rawAddress: u32, rawSize: u32)

  datatype Image = Image(base: u32, sizeOfImage: u32, sizeOfHeaders: u32, sections: seq<Section>)

  datatype LoadError =
    | ImageLeavesGuestSpace
    | RangeOutsideImage(section: Option<u32>, address: u32)
    | HeaderExceedsFile
    | RawExceedsVirtual(index: u32)
    | RawRange(index: u32)
    | ByteOverlap(section: Option<u32>, address: u32)
    | Memory(error: SpaceError)

  /** A byte range to copy in, with what it contributes to its pages' permissions. */
  datatype Extent = Extent(
    start: u32, size: u32, data: seq<u8>, writable: bool, executable: bool,
    headPageReadOnly: bool, tailPageReadOnly: bool, section: Option<u32>)
  {
    predicate Fits() { size > 0 && start + size <= TWO32 && |data| <= size }

    function FirstPage(): nat { start / PAGE }

    function LastPage(): nat { if size == 0 then start / PAGE else (start + size - 1) / PAGE }

    predicate Covers(page: nat) { FirstPage() <= page <= LastPage() }

    /** The write permission, less the head and tail pages marked read-only. */
    predicate WritesPage(page: nat) {
      writable && !(page == FirstPage() && headPageReadOnly) && !(page == LastPage() && tailPageReadOnly)
    }

    /** The data reaches an address. */
    predicate Holds(address: nat) { start <= address < start + |data| }
  }

  // --- extents ---------------------------------------------------------------------------

  predicate WithinImage(image: Image, start: u32, size: u32) {
    image.base <= start && start + size <= image.base + image.sizeOfImage
  }

  function HeaderExtent(image: Image, file: seq<u8>): Result<seq<Extent>, LoadError> {
    if image.sizeOfHeaders == 0 then Ok([])
    else if !WithinImage(image, image.base, image.sizeOfHeaders) then Err(RangeOutsideImage(None, image.base))
    else if image.sizeOfHeaders > |file| then Err(HeaderExceedsFile)
    else Ok([Extent(image.base, image.sizeOfHeaders, file[..image.sizeOfHeaders], false, false, false, false, None)])
  }

  function SectionExtent(image: Image, file: seq<u8>, s: Section): Result<seq<Extent>, LoadError> {
    if s.virtualSize == 0 then Ok([])
    else if s.rawSize > s.virtualSize then Err(RawExceedsVirtual(s.index))
    else if !WithinImage(image, s.virtualAddress, s.virtualSize) then Err(RangeOutsideImage(Some(s.index), s.virtualAddress))
    else if s.rawAddress + s.rawSize > |file| then Err(RawRange(s.index))
    else Ok([Extent(s.virtualAddress, s.virtualSize, file[s.rawAddress..s.rawAddress + s.rawSize], s.writable, s.executable,
                    s.headPageReadOnly, s.tailPageReadOnly, Some(s.index))])
  }

  /** The extents of sections in order, or the first section's error. */
  function SectionExtents(image: Image, file: seq<u8>, sections: seq<Section>): Result<seq<Extent>, LoadError> {
    if sections == [] then Ok([]) else
    var before :- SectionExtents(image, file, sections[..|sections| - 1]);
    var last :- SectionExtent(image, file, sections[|sections| - 1]);
    Ok(before + last)
  }

  /** All extents of an image, overlap not yet checked. */
  function Extents(image: Image, file: seq<u8>): Result<seq<Extent>, LoadError> {
    if image.base + image.sizeOfImage > TWO32 then Err(ImageLeavesGuestSpace) else
    var header :- HeaderExtent(image, file);
    var sections :- SectionExtents(image, file, image.sections);
    Ok(header + sections)
  }

  predicate AllFit(extents: seq<Extent>) { forall k :: 0 <= k < |extents| ==> extents[k].Fits() }

  lemma {:induction false} SectionsFit(image: Image, file: seq<u8>, sections: seq<Section>)
    requires image.base + image.sizeOfImage <= TWO32 && SectionExtents(image, file, sections).Ok?
    ensures AllFit(SectionExtents(image, file, sections).value)
  {
    if sections != [] { SectionsFit(image, file, sections[..|sections| - 1]); }
  }

  lemma ExtentsFit(image: Image, file: seq<u8>)
    requires Extents(image, file).Ok?
    ensures AllFit(Extents(image, file).value)
  {
    SectionsFit(image, file, image.sections);
  }

  predicate Apart(a: Extent, b: Extent) { a.start + a.size <= b.start || b.start + b.size <= a.start }

  /** No two extents share a byte. */
  ghost predicate Disjoint(extents: seq<Extent>) {
    forall i, j :: 0 <= i < j < |extents| ==> Apart(extents[i], extents[j])
  }

  /** A permutation of disjoint extents is disjoint. */
  lemma DisjointPermutes(a: seq<Extent>, b: seq<Extent>)
    requires multiset(a) == multiset(b) && Disjoint(a)
    ensures Disjoint(b)
  {
    hide Apart;
    forall i, j | 0 <= i < j < |b| ensures Apart(b[i], b[j]) {
      assert b[i] in multiset(a) && b[j] in multiset(a);
      if b[i] == b[j] {
        RepeatedIndex(b, i, j);
        var k, l := RepeatedValue(a, b[i]);
        assert Apart(a[k], a[l]);
      } else {
        var k :| 0 <= k < |a| && a[k] == b[i];
        var l :| 0 <= l < |a| && a[l] == b[j];
        assert k != l;
        if k < l { assert Apart(a[k], a[l]); } else { assert Apart(a[l], a[k]); }
        ApartSymmetric(b[i], b[j]);
      }
    }
  }

  lemma ApartSymmetric(a: Extent, b: Extent)
    ensures Apart(a, b) <==> Apart(b, a)
  {}

  lemma {:induction false} AdjacentApart(s: seq<Extent>, i: nat, j: nat)
    requires i < j < |s| && AllFit(s)
    requires forall k :: 0 < k <= j ==> s[k - 1].start + s[k - 1].size <= s[k].start
    ensures s[i].start + s[i].size <= s[j].start
    decreases j
  {
    if i + 1 < j { AdjacentApart(s, i, j - 1); }
  }

  /** The extent of a section overlaps one that starts no later. */
  ghost predicate OverlapsAnother(extents: seq<Extent>, section: Option<u32>, address: u32) {
    exists i, j :: 0 <= i < |extents| && 0 <= j < |extents| && i != j && !Apart(extents[i], extents[j])
                   && extents[i].start <= extents[j].start && extents[j].section == section && extents[j].start == address
  }

  /** Sorts by address and checks neighbours, which finds any overlap there is. */
  method RejectByteOverlap(extents: seq<Extent>) returns (r: Result<(), LoadError>)
    requires AllFit(extents)
    ensures r.Ok? <==> Disjoint(extents)
    ensures r.Err? ==> r.error.ByteOverlap? && OverlapsAnother(extents, r.error.section, r.error.address)
  {
    hide Disjoint;
    var ordered := SortBy(extents, (e: Extent) => e.start);
    AllFitPermutes(extents, ordered);
    var index := 1;
    while index < |ordered|
      invariant 1 <= index
      invariant forall k :: 0 < k < index && k < |ordered| ==> ordered[k - 1].start + ordered[k - 1].size <= ordered[k].start
    {
      if ordered[index].start < ordered[index - 1].start + ordered[index - 1].size {
        Overlapping(ordered, index);
        if Disjoint(extents) { DisjointPermutes(extents, ordered); }
        ghost var k, l := PairMoves(extents, ordered, index - 1, index);
        assert !Apart(extents[k], extents[l]);
        return Err(ByteOverlap(ordered[index].section, ordered[index].start));
      }
      index := index + 1;
    }
    AllAdjacentApart(ordered);
    DisjointPermutes(ordered, extents);
    return Ok(());
  }

  lemma AllFitPermutes(a: seq<Extent>, b: seq<Extent>)
    requires multiset(a) == multiset(b) && AllFit(a)
    ensures AllFit(b)
  {
    forall k | 0 <= k < |b| ensures b[k].Fits() { assert b[k] in multiset(a); }
  }

  lemma Overlapping(ordered: seq<Extent>, index: nat)
    requires 0 < index < |ordered| && AllFit(ordered)
    requires ordered[index - 1].start <= ordered[index].start < ordered[index - 1].start + ordered[index - 1].size
    ensures !Disjoint(ordered)
  {
    assert !Apart(ordered[index - 1], ordered[index]);
  }

  lemma AllAdjacentApart(s: seq<Extent>)
    requires AllFit(s) && forall k :: 0 < k < |s| ==> s[k - 1].start + s[k - 1].size <= s[k].start
    ensures Disjoint(s)
  {
    forall i, j | 0 <= i < j < |s| ensures Apart(s[i], s[j]) { AdjacentApart(s, i, j); }
  }

  /** Header and sections as extents, checked. */
  method ImageExtents(image: Image, file: seq<u8>) returns (r: Result<seq<Extent>, LoadError>)
    ensures r.Ok? <==> Extents(image, file).Ok? && Disjoint(Extents(image, file).value)
    ensures r.Ok? ==> r == Extents(image, file) && AllFit(r.value)
    ensures Extents(image, file).Err? ==> r == Extents(image, file)
  {
    hide Disjoint, SectionExtent, HeaderExtent;
    if image.base + image.sizeOfImage > TWO32 { return Err(ImageLeavesGuestSpace); }
    var extents :- HeaderExtent(image, file);
    ghost var header := extents;
    for k := 0 to |image.sections|
      invariant SectionExtents(image, file, image.sections[..k]).Ok?
      invariant extents == header + SectionExtents(image, file, image.sections[..k]).value
    {
      assert image.sections[..k + 1][..k] == image.sections[..k];
      var one := SectionExtent(image, file, image.sections[k]);
      if one.Err? {
        SectionsStop(image, file, image.sections, k);
        return Err(one.error);
      }
      extents := extents + one.value;
    }
    assert image.sections[..|image.sections|] == image.sections;
    ExtentsFit(image, file);
    var _ :- RejectByteOverlap(extents);
    return Ok(extents);
  }

  lemma {:induction false} SectionsStop(image: Image, file: seq<u8>, sections: seq<Section>, k: nat)
    requires k < |sections| && SectionExtents(image, file, sections[..k]).Ok? && SectionExtent(image, file, sections[k]).Err?
    ensures SectionExtents(image, file, sections).Err?
    ensures SectionExtents(image, file, sections).error == SectionExtent(image, file, sections[k]).error
    decreases |sections|
  {
    hide SectionExtent;
    var n := |sections| - 1;
    if k < n {
      assert sections[..n][..k] == sections[..k];
      SectionsStop(image, file, sections[..n], k);
    }
  }
}
